/** The optional value and the value-or-error result shared by the resolver
    and by `run`. */
module Wrappers {

  /** A value that may be absent (`Option`). */
  datatype Option<T> = None | Some(value: T)

  /** A value, or the message of the error that prevented it (`Result`). */
  datatype Result<T> = Ok(value: T) | Err(error: string)
}
