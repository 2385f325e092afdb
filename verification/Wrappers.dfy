/** Results that may be missing or may be an error. */
module Wrappers {
  datatype Option<T> = None | Some(value: T)

  datatype Result<T> = Ok(value: T) | Error(what: string)
}
