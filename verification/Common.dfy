/** Small value types shared by every module. */
module Common {

  datatype Option<+T> = None | Some(value: T)

  datatype Result<+T, +E> = Ok(value: T) | Err(error: E)

  newtype byte = x: int | 0 <= x < 256

  const TWO16: nat := 0x1_0000
  const TWO32: nat := 0x1_0000_0000
}
