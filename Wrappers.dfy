/** Optional values and results that carry an error message, standing in for
    JavaScript's `undefined` and for thrown `Error`s. */
module Wrappers {

  datatype Option<+T> = None | Some(value: T)

  datatype Result<+T> = Ok(value: T) | Err(message: string)
}
