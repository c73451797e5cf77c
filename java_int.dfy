/** Java's 32-bit two's-complement `int`, as far as the field flags and the
    justification need it. */
module JavaInt {

  const TWO_31: int := 0x8000_0000
  const TWO_32: int := 0x1_0000_0000

  /** The values of a Java `int`. */
  type Int32 = i: int | -TWO_31 <= i < TWO_31

  /** Java's narrowing conversion `(int) n`, which `COSNumber.intValue()`
      applies to the integer a COS number holds: keep the low 32 bits and
      read them as a two's-complement value. */
  function IntValue(n: int): (i: Int32)
    ensures (i - n) % TWO_32 == 0
    ensures -TWO_31 <= n < TWO_31 ==> i == n
  {
    (n + TWO_31) % TWO_32 - TWO_31
  }
}
