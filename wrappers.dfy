/** Option and Result: how the plugin's `None` results and raised exceptions are represented. */
module Wrappers {

  datatype Option<+T> = None | Some(value: T)

  datatype Result<+R, +E> = Success(value: R) | Failure(error: E)
}
