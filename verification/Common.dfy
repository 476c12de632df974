/** Types that several modules share. */
module Common {
  datatype Option<+T> = None | Some(value: T)

  datatype Result<+T, +E> = Ok(value: T) | Err(error: E)

  type byte = b: nat | b < 256

  const U64: nat := 0x1_0000_0000_0000_0000

  type u64 = n: nat | n < U64
}
