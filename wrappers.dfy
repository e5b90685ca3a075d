/** Small value types shared by the other modules. */
module Wrappers {

  /** A value that may be absent: Python's `None` versus a real value. */
  datatype Option<+T> = None | Some(value: T)

  /** One byte of a file or of a serialised document. */
  newtype byte = x: int | 0 <= x < 256

  type Bytes = seq<byte>
}
