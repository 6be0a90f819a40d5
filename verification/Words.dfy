/** The 32-bit words of the library: every store into a uint32 or an int32 goes through one of these. */
module Words {

  const TWO_31: int := 0x8000_0000
  const TWO_32: int := 0x1_0000_0000

  // Conversion to uint32.
  function U32(x: int): (u: int)
    ensures 0 <= u < TWO_32
  {
    x % TWO_32
  }

  // Conversion to int32.
  function I32(x: int): int {
    if U32(x) < TWO_31 then U32(x) else U32(x) - TWO_32
  }

  lemma U32Plus(x: int, y: int)
    ensures U32(U32(x) + y) == U32(x + y)
  {
  }
}
