/** Outcomes of calls that can fail.  A Python call that raises is modelled as
    `None` (or `Failure`), a call that returns as `Some` (or `Success`). */
module Wrappers {

  datatype Option<+T> = None | Some(value: T)

  datatype Result<+T, +E> = Success(value: T) | Failure(error: E)
}
