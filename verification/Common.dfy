/** Result types shared by the whole project: Go's `(value, error)` pairs and nil-able values. */
module Common {
  datatype Option<+T> = None | Some(value: T)

  datatype Result<+T, +E> = Ok(value: T) | Err(error: E)

  type Byte = b: int | 0 <= b < 256
  type Bytes = seq<Byte>

  type Positive = n: nat | n > 0 witness 1

  const TWO_TO_64: int := 0x1_0000_0000_0000_0000
  type Uint64 = n: int | 0 <= n < TWO_TO_64
  type Uint32 = n: int | 0 <= n < 0x1_0000_0000
}
