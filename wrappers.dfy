/** The optional value used where the loader may or may not obtain something. */
module Wrappers {
  datatype Option<+T> = None | Some(value: T)
}

/** One byte of the file or of the pixel buffer (`char`, `uint8_t`). */
module Bytes {
  type Byte = bv8
}
