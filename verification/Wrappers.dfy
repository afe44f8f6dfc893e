/** The two result shapes the whole model uses for Go's `(value, ok)` and `(value, err)`. */
module Wrappers {
  datatype Option<+T> = None | Some(value: T)

  datatype Outcome<+T> = Ok(value: T) | Err
}

/** Go's []byte. */
module ByteStrings {
  newtype byte = x: int | 0 <= x < 256

  type Bytes = seq<byte>
}
