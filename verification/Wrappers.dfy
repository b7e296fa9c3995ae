/** Types every other module shares. */
module Wrappers {
  datatype Option<+T> = None | Some(value: T)

  /** The source's `anyhow::Result`; the error text is not modelled. */
  datatype Result<+T> = Ok(value: T) | Err

  type byte = b: int | 0 <= b < 256
}
