/** Failure-carrying result types shared by every module of the model.
    C++ exceptions and "no value" returns of the library become `Err` / `None`. */
module Wrappers {

  datatype Option<+T> = None | Some(value: T)

  datatype Result<+T, +E> = Ok(value: T) | Err(error: E)
}
