/** Optional values and results that may carry an error message: the model's
    stand-ins for Python's None and for a raised exception. */
module Wrappers {

  datatype Option<+T> = None | Some(value: T)

  /** `Err(msg)` stands for an exception whose text is `msg`. */
  datatype Result<+T> = Ok(value: T) | Err(msg: string)
}
