/** Success-or-error values used in place of the source's thrown `Error`s. */
module Wrappers {

  datatype Option<+T> = None | Some(value: T)

  /** `Ok(v)` is a resolved promise carrying `v`; `Err(message)` is a rejection with `new Error(message)`. */
  datatype Result<+T> = Ok(value: T) | Err(message: string)
}
