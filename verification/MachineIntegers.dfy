/** The fixed-width integers of the runtime, as ranges of the mathematical integers. */
module MachineIntegers {
  /** JITINT16: one UTF-16 code unit, signed as the source declares it. */
  type Int16 = x: int | -0x8000 <= x < 0x8000

  /** JITINT8: one byte, signed as the source declares it. */
  type Int8 = x: int | -0x80 <= x < 0x80

  /** JITINT32. */
  type Int32 = x: int | -0x8000_0000 <= x < 0x8000_0000

  /** A JITINT32 that is not negative: a length or a capacity. */
  type Count32 = x: int | 0 <= x < 0x8000_0000

  /** JITUINT32. */
  type UInt32 = x: int | 0 <= x < 0x1_0000_0000

  /** Two's complement wrap-around to 32 bits. */
  function Wrap32(x: int): (r: Int32) {
    (x + 0x8000_0000) % 0x1_0000_0000 - 0x8000_0000
  }

  /** Unsigned wrap-around to 32 bits. */
  function U32(x: int): (r: UInt32) {
    x % 0x1_0000_0000
  }

  /** Wrapping around on the way to a sum makes no difference to the wrapped sum. */
  lemma WrapSum(a: int, b: int)
    ensures Wrap32(a + Wrap32(b)) == Wrap32(a + b)
  {
  }

  lemma WrapIsExact(x: int)
    ensures Wrap32(x) == x <==> -0x8000_0000 <= x < 0x8000_0000
  {
  }

  /** The wrapped number is congruent to the number modulo 2^32; with its range, that is all there is to it. */
  lemma WrapIsCongruent(x: int)
    ensures x == Wrap32(x) + 0x1_0000_0000 * ((x + 0x8000_0000) / 0x1_0000_0000)
    ensures x == U32(x) + 0x1_0000_0000 * (x / 0x1_0000_0000)
  {
  }
}
