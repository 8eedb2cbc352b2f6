/** What several parts of the model share. */
module Basics {

  datatype Option<+T> = None | Some(value: T)

  type Byte = x: int | 0 <= x < 256

  function Bit(b: bool): nat {
    if b then 1 else 0
  }

  /** The first number that is too large for an int. */
  const INT_LIMIT: int := 0x8000_0000
}
