/** Failure-carrying values shared by every module of the model: JavaScript's
    `null`/`undefined` become `None`, a thrown `Error` becomes `Err`. */
module Wrappers {

  datatype Option<+T> = None | Some(value: T)

  datatype Result<+T, +E> = Ok(value: T) | Err(error: E)
}
