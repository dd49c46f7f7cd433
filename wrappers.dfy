/** Option and Result, used for missing readings, absent rolling averages and
    the pipeline's error returns. */
module Wrappers {

  datatype Option<+T> = None | Some(value: T)

  datatype Result<+R, +E> = Success(value: R) | Failure(error: E)
}
