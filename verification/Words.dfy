// Machine words and the two small datatypes shared by every module.
module Words {
  type uint32 = x: int | 0 <= x < 0x1_0000_0000

  type uint64 = x: int | 0 <= x < 0x1_0000_0000_0000_0000

  /** The value a 32-bit unsigned register keeps of an arithmetic result. */
  function U32(x: int): uint32 {
    x % 0x1_0000_0000
  }

  /** The value a 32-bit signed register keeps of an arithmetic result. */
  function I32(x: int): int {
    if U32(x) < 0x8000_0000 then U32(x) else U32(x) - 0x1_0000_0000
  }

  /** The value a 64-bit unsigned register keeps of an arithmetic result. */
  function U64(x: int): uint64 {
    x % 0x1_0000_0000_0000_0000
  }

  function Min(x: int, y: int): int {
    if x < y then x else y
  }

  function Max(x: int, y: int): int {
    if x > y then x else y
  }

  datatype Option<+T> = None | Some(value: T)
}
