// Bounded integers and the optional value shared by the modules of this project.
module Common {
  datatype Option<+T> = None | Some(value: T)

  type Byte = x: int | 0 <= x < 0x100
  type U16 = x: int | 0 <= x < 0x1_0000
  type U32 = x: int | 0 <= x < 0x1_0000_0000

  // number of 32-bit words
  const WORD: int := 0x1_0000_0000
  const U32_MAX: U32 := 0xFFFF_FFFF
}
