/** Java's fixed-width integer types and their two's complement arithmetic. */
module JavaInt {

  const TWO_32: int := 0x1_0000_0000
  const TWO_64: int := 0x1_0000_0000_0000_0000

  /** Java `int`. */
  newtype int32 = x: int | -0x8000_0000 <= x < 0x8000_0000

  /** Java `long`. */
  newtype int64 = x: int | -0x8000_0000_0000_0000 <= x < 0x8000_0000_0000_0000

  const INT_MAX: int32 := 0x7fff_ffff
  const INT_MIN: int32 := -0x8000_0000
  const LONG_MAX: int64 := 0x7fff_ffff_ffff_ffff
  const LONG_MIN: int64 := -0x8000_0000_0000_0000

  /** Reduces an unbounded integer to the `int` with the same low 32 bits. */
  function Wrap32(x: int): (r: int32)
    ensures (r as int - x) % TWO_32 == 0
    ensures INT_MIN as int <= x <= INT_MAX as int ==> r as int == x
  {
    var m := (x + 0x8000_0000) % TWO_32;
    assert m - (x + 0x8000_0000) == -TWO_32 * ((x + 0x8000_0000) / TWO_32);
    (m - 0x8000_0000) as int32
  }

  /** Reduces an unbounded integer to the `long` with the same low 64 bits. */
  function Wrap64(x: int): (r: int64)
    ensures (r as int - x) % TWO_64 == 0
    ensures LONG_MIN as int <= x <= LONG_MAX as int ==> r as int == x
  {
    var m := (x + 0x8000_0000_0000_0000) % TWO_64;
    assert m - (x + 0x8000_0000_0000_0000) == -TWO_64 * ((x + 0x8000_0000_0000_0000) / TWO_64);
    (m - 0x8000_0000_0000_0000) as int64
  }

  /** `x++` on an `int`: one more, except that the largest `int` wraps to the smallest. */
  function Inc32(x: int32): (r: int32)
    ensures x < INT_MAX ==> r as int == x as int + 1
    ensures x == INT_MAX ==> r == INT_MIN
  {
    Wrap32(x as int + 1)
  }

  /** `a + b` on `long`s. */
  function Add64(a: int64, b: int64): (r: int64)
    ensures (r as int - (a as int + b as int)) % TWO_64 == 0
    ensures LONG_MIN as int <= a as int + b as int <= LONG_MAX as int ==> r as int == a as int + b as int
  {
    Wrap64(a as int + b as int)
  }

  /** `a - b` on `long`s. */
  function Sub64(a: int64, b: int64): (r: int64)
    ensures (r as int - (a as int - b as int)) % TWO_64 == 0
    ensures LONG_MIN as int <= a as int - b as int <= LONG_MAX as int ==> r as int == a as int - b as int
  {
    Wrap64(a as int - b as int)
  }
}
