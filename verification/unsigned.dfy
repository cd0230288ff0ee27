/** Fixed-width unsigned integers of the controller's C++ code: `byte`
    (8 bits) and `unsigned long` (32 bits on the Arduino target). Dafny
    integers are unbounded, so every wrap-around is written out here. */
module Unsigned {

  /** Number of distinct `unsigned long` values. */
  const TWO_32: int := 0x1_0000_0000

  type u32 = x: int | 0 <= x < TWO_32
  type byte = x: int | 0 <= x < 256

  /** Conversion of an integer result to `unsigned long`: reduction mod 2^32. */
  function Wrap32(x: int): (r: u32)
    ensures 0 <= x < TWO_32 ==> r == x
    ensures (x - r) % TWO_32 == 0
  {
    x % TWO_32
  }

  /** Conversion of an `int` to `byte`: reduction mod 2^8. */
  function Wrap8(x: int): (r: byte)
    ensures 0 <= x < 256 ==> r == x
    ensures (x - r) % 256 == 0
  {
    x % 256
  }

  /** Unsigned subtraction `a - b` on `unsigned long`: the distance from `b`
      forward to `a` on the 32-bit clock face. */
  function Sub32(a: u32, b: u32): (r: u32)
    ensures Wrap32(b + r) == a
    ensures b <= a ==> r == a - b
    ensures a < b ==> r == a - b + TWO_32
  {
    Wrap32(a - b)
  }
}
