/** Option and Result values used in place of Python's `None` and the
    warnings or exceptions raised by the labeling app. */
module Wrappers {

  datatype Option<+T> = None | Some(value: T)

  datatype Result<+R, +E> = Success(value: R) | Failure(error: E)
}
