/** Optional values and operation outcomes shared by the event-catalog model. */
module Wrappers {

  /** A value that may be missing: a nullable cell of the event table. */
  datatype Option<+T> = None | Some(value: T)

  /** A request field that the caller either left out or supplied. Only
      supplied fields reach the search filter and the partial update. */
  datatype Field<+T> = Unset | Set(value: T)

  /** The outcome of a store operation: its value, or the error the service reports. */
  datatype Result<+R, +E> = Success(value: R) | Failure(error: E)
}
