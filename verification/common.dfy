/** Machine integer widths and the failure-carrying datatypes shared by the model. */
module Common {

  /** An unsigned 8-bit value (a Rust `u8`): one byte of section data, or the word width. */
  type u8 = x: int | 0 <= x < 0x100

  /** An unsigned 64-bit value (a Rust `u64`): section addresses, offsets and sizes. */
  type u64 = x: int | 0 <= x < 0x1_0000_0000_0000_0000

  datatype Option<+T> = None | Some(value: T)

  datatype Result<+R, +E> = Ok(value: R) | Err(error: E)
}
