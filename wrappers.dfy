/** Option and Result, used for the scheduler's unset time fields and for the
    cycle error that the ordering pass raises. */
module Wrappers {

  datatype Option<+T> = None | Some(value: T)

  datatype Result<+R, +E> = Ok(value: R) | Err(error: E)
}
