/** Fixed-width integers as ranges of the integers, with the conversions the program performs. */
module Words {

  type byte = b: int | 0 <= b < 0x100
  type int32 = n: int | -0x8000_0000 <= n < 0x8000_0000
  type uint64 = n: int | 0 <= n < 0x1_0000_0000_0000_0000
  type int64 = n: int | -0x8000_0000_0000_0000 <= n < 0x8000_0000_0000_0000

  /** The int64 with the same low 64 bits. */
  function WrapInt64(n: int): int64
  {
    var low := n % 0x1_0000_0000_0000_0000;
    if low < 0x8000_0000_0000_0000 then low else low - 0x1_0000_0000_0000_0000
  }

  /** The uint64 with the same 64 bits. */
  function ToUint64(n: int64): (r: uint64)
    ensures WrapInt64(r) == n
  {
    if n < 0 then n + 0x1_0000_0000_0000_0000 else n
  }

  lemma Uint64RoundTrip(n: uint64)
    ensures ToUint64(WrapInt64(n)) == n
  {
  }

  function WrapInt32(n: int): (r: int32)
    ensures -0x8000_0000 <= n < 0x8000_0000 ==> r == n
  {
    var low := n % 0x1_0000_0000;
    if low < 0x8000_0000 then low else low - 0x1_0000_0000
  }
}
