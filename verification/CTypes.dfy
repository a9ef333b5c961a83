/** The fixed-width integers of the C code, and its error numbers. */
module CTypes {
  type U8 = x: int | 0 <= x < 0x100
  type U16 = x: int | 0 <= x < 0x1_0000
  type U32 = x: int | 0 <= x < 0x1_0000_0000
  type I32 = x: int | -0x8000_0000 <= x < 0x8000_0000

  /** A 32-bit word read as a two's complement integer. */
  function Signed32(w: U32): I32 { if w < 0x8000_0000 then w else w - 0x1_0000_0000 }

  const EIO := 5
  const EAGAIN := 11
  const ENODEV := 19
  const EINVAL := 22
  const ENOTSUP := 35
  const EMSGSIZE := 36
  const EALREADY := 69
}
