/** Option and Result values for the optional fields of a record and for the
    operations that the analyzer lets raise. */
module Wrappers {

  datatype Option<+T> = None | Some(value: T)

  /** The outcome of a Python call that either returns a value or raises an
      exception whose `str(e)` is `error`. */
  datatype Result<+T> = Success(value: T) | Failure(error: string)
}
