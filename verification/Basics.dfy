/** The fixed-width integers of the kernel's C code and the option type shared by every module. */
module Basics {

  type byte = x: int | 0 <= x < 0x100
  /** C's char, which is signed here. */
  type char8 = c: int | -128 <= c < 128
  type uint16 = x: int | 0 <= x < 0x1_0000
  type uint32 = x: int | 0 <= x < 0x1_0000_0000

  datatype Option<+T> = None | Some(value: T)
}
