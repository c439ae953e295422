/** Shared vocabulary of both cores: bytes, optional values and the status
    codes of the C sources (SUCCESS/FAILURE from error.h, errno values). */
module Common {

  /** One byte of a buffer or bus frame (`char` / `uint8_t` in the C). */
  type byte = bv8

  /** One byte as a number, for code that does arithmetic on bytes (lengths,
      headers) rather than bit operations (`char` buffers of the IIO layer). */
  type octet = x: int | 0 <= x < 0x100

  /** A value that may be absent (a NULL pointer, a failed bus read). */
  datatype Option<+T> = None | Some(value: T)

  const SUCCESS: int := 0
  const FAILURE: int := -1

  // errno numbers. Only their signs and distinctness matter to the model.
  const ENOENT: int := 2
  const EAGAIN: int := 11
  const ENOMEM: int := 12
  const ENODEV: int := 19
  const EINVAL: int := 22
  const ENOSPC: int := 28
  const ENOTCONN: int := 107

  /** `IS_ERR_VALUE` of the C sources: a negative return value is an error. */
  predicate IsError(ret: int) {
    ret < 0
  }
}
