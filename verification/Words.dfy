/**
 The fixed-width integers of the source. Arithmetic on a newtype carries a proof obligation
 that the result is in range, so a method that verifies over these types never overflows.
 An arithmetic right shift by k is floor division by 2^k, which is Dafny's `/` for a positive divisor.
 */
module Words {
  newtype byte = x: int | 0 <= x < 0x100
  newtype int8 = x: int | -0x80 <= x < 0x80
  newtype int32 = x: int | -0x8000_0000 <= x < 0x8000_0000
  newtype int64 = x: int | -0x8000_0000_0000_0000 <= x < 0x8000_0000_0000_0000
}
