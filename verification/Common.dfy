// Shared result types.
module Common {
  datatype Option<+T> = None | Some(value: T)

  datatype Result<+T, +E> = Ok(value: T) | Err(error: E)

  const OK := 0
  const EIO := -5
  const ENOMEM := -12
  const EBUSY := -16
  const ENODEV := -19
  const EINVAL := -22

  /** A kernel error code. */
  type Errno = e: int | e < 0 witness EINVAL

  function Clamp(n: int, lo: int, hi: int): int { if n < lo then lo else if n > hi then hi else n }

  /** An unsigned byte, `u8` in the kernel module. */
  type u8 = x: int | 0 <= x < 0x100
}
