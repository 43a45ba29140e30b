/** Failure-compatible wrappers used throughout the model: `Option` for a
    query that may find nothing (a `.first()` returning `None`), `Result`
    for a store write that may be refused (an integrity error). */
module Wrappers {

  datatype Option<+T> = None | Some(value: T)

  datatype Result<+R, +E> = Success(value: R) | Failure(error: E)
}
