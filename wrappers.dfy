/** Optional values and results shared by the simulator modules. `Option` stands for
    Python's `Optional[...]`/`None`; `Result` for an operation that may raise. */
module Wrappers {

  datatype Option<+T> = None | Some(value: T)

  datatype Result<+R, +E> = Success(value: R) | Failure(error: E)
}
