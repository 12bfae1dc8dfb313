/** Types shared by the modules. */
module Basics {
  datatype Option<+T> = None | Some(value: T)

  /** The outcome of a call that can fail. */
  datatype Fetched<+T> = Ok(value: T) | Err

  newtype byte = b: int | 0 <= b < 256
  type Bytes = seq<byte>
}
