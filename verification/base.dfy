/** Shared building blocks: optional values, results, and the fixed-width
    integer ranges that the kernel record and the Python code work with. */
module Base {

  /** A value that may be absent (Python `None`, a failed read, a missing key). */
  datatype Option<+T> = None | Some(value: T)

  /** An outcome that is either a value or an error (a raised exception). */
  datatype Result<+T, +E> = Success(value: T) | Failure(error: E)

  const TWO_8: int := 0x100
  const TWO_16: int := 0x1_0000
  const TWO_32: int := 0x1_0000_0000
  const TWO_64: int := 0x1_0000_0000_0000_0000

  type u8 = x: int | 0 <= x < 0x100
  type u16 = x: int | 0 <= x < 0x1_0000
  type u32 = x: int | 0 <= x < 0x1_0000_0000
  type u64 = x: int | 0 <= x < 0x1_0000_0000_0000_0000
  type i32 = x: int | -0x8000_0000 <= x < 0x8000_0000
  type i64 = x: int | -0x8000_0000_0000_0000 <= x < 0x8000_0000_0000_0000
}
