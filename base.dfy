/** Machine integer ranges and the Option/Result wrappers shared by the bridge model. */
module Base {

  const I16_MIN: int := -0x8000
  const I16_MAX: int := 0x7FFF
  const U16_MAX: int := 0xFFFF
  const U8_MAX: int := 0xFF
  const U32_MAX: int := 0xFFFF_FFFF

  /** A Rust `i32`, the type of every reading the host hands across the boundary. */
  type i32 = x: int | -0x8000_0000 <= x < 0x8000_0000
  type u32 = x: int | 0 <= x <= U32_MAX
  type i16 = x: int | I16_MIN <= x <= I16_MAX
  type u16 = x: int | 0 <= x <= U16_MAX
  type u8 = x: int | 0 <= x <= U8_MAX

  /** A byte of a disk image or of an audio/video payload. */
  type byte = u8

  datatype Option<+T> = None | Some(value: T)

  datatype Result<+T, +E> = Ok(value: T) | Err(error: E)

  /** The NUL character, which a C string cannot carry. */
  const NUL: char := '\0'
}
