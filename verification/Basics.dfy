/** Types and consensus constants that several modules share. */
module Basics {
  datatype Option<T> = None | Some(value: T)

  type Byte = x: int | 0 <= x < 256
  type Hash = nat

  const MAX_BLOCK_WEIGHT := 4_000_000
  const MIN_TRANSACTION_WEIGHT := 240
  const MIN_SERIALIZABLE_TRANSACTION_WEIGHT := 40
}
