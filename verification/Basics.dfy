// What the other modules share: the machine's integers, and two small things.
module Basics {

  datatype Option<+T> = None | Some(value: T)

  // A byte as bits, where the source works on its bits, and as a number.
  type byte = bv8
  type uint8 = x: int | 0 <= x < 256

  type int8 = x: int | -128 <= x < 128
  type int32 = x: int | -0x8000_0000 <= x < 0x8000_0000
  type uint32 = x: int | 0 <= x < 0x1_0000_0000
  type int64 = x: int | -0x8000_0000_0000_0000 <= x < 0x8000_0000_0000_0000

  function Min(a: nat, b: nat): nat {
    if a <= b then a else b
  }
}
