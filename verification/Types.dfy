/** The C++ integer widths the ledger relies on, and the result of an operation that may have none. */
module Types {

  type byte = bv8

  const TWO_TO_THE_8 := 0x100
  const TWO_TO_THE_16 := 0x1_0000
  const TWO_TO_THE_32 := 0x1_0000_0000
  const TWO_TO_THE_64 := 0x1_0000_0000_0000_0000

  type uint8 = x: int | 0 <= x < 0x100
  type uint16 = x: int | 0 <= x < 0x1_0000
  type uint32 = x: int | 0 <= x < 0x1_0000_0000
  type uint64 = x: int | 0 <= x < 0x1_0000_0000_0000_0000

  /** What is left of n in an unsigned integer of 8, 16, 32 or 64 bits. */
  function Low8(n: int): uint8 {
    n % TWO_TO_THE_8
  }

  function Low16(n: int): uint16 {
    n % TWO_TO_THE_16
  }

  function Low32(n: int): uint32 {
    n % TWO_TO_THE_32
  }

  function Low64(n: int): uint64 {
    n % TWO_TO_THE_64
  }

  datatype Option<+T> = None | Some(value: T)

  /** The element at a position, or none when the position is out of range. */
  function At<T>(s: seq<T>, i: nat): Option<T> {
    if i < |s| then Some(s[i]) else None
  }
}
