// Machine integers that several modules use.
module Words {
  type Byte = bv8

  type Int32 = x: int | -0x8000_0000 <= x < 0x8000_0000

  type Uint32 = x: int | 0 <= x < 0x1_0000_0000
}
