/** Kotlin's `Int`: a 32-bit two's-complement integer. */
module Int32 {

  const MinValue: int := -0x8000_0000
  const MaxValue: int := 0x7fff_ffff

  type int32 = x: int | MinValue <= x <= MaxValue

  /** The result of a 32-bit addition that overflows: wrap-around modulo 2^32. */
  function Wrap(x: int): (r: int32)
    ensures MinValue <= x <= MaxValue ==> r == x
    ensures (r - x) % 0x1_0000_0000 == 0
  {
    var m := (x - MinValue) % 0x1_0000_0000;
    m + MinValue
  }
}
