/** Option and Result: absent values and error returns, instead of preconditions. */
module Wrappers {

  datatype Option<+T> = None | Some(value: T)

  /** Outcome of a Django `clean_*` hook: the cleaned value, or the
      `ValidationError` it raises with its message. */
  datatype Result<+T> = Ok(value: T) | ValidationError(message: string)
}
