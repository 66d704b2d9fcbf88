/**
 The fixed-width integers of the program.
 */
module Words {
  const TWO_32 := 0x1_0000_0000
  const TWO_64 := 0x1_0000_0000_0000_0000

  type byte = x: int | 0 <= x < 256
  type word = x: int | 0 <= x < 0x1_0000

  // Truncation to 16, 32 and 64 bits
  function U16(x: int): word { if 0 <= x < 0x1_0000 then x else x % 0x1_0000 }
  function U32(x: int): nat { if 0 <= x < TWO_32 then x else x % TWO_32 }
  function U64(x: int): nat { if 0 <= x < TWO_64 then x else x % TWO_64 }
}
