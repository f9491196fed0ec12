/** The machine integers that the modules share. */
module Integers {

  type byte = b: int | 0 <= b < 256

  const U32 := 0x1_0000_0000
  const I32 := 0x8000_0000
  const U64 := 0x1_0000_0000_0000_0000
  const I64 := 0x8000_0000_0000_0000

  /** A 64-bit document id as a signed attribute value. */
  function ToSigned(id: int): (v: int)
    ensures 0 <= id < U64 ==> -I64 <= v < I64 && (v < 0 <==> id >= I64)
  {
    if id < I64 then id else id - U64
  }

  /** And back. */
  function ToUnsigned(v: int): (id: int)
    ensures 0 <= id < U64
    ensures -I64 <= v < I64 ==> id == if v < 0 then v + U64 else v
  {
    v % U64
  }
}
