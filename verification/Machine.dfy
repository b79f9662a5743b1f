/** Fixed-width integers, batch size and the option type shared by every module. */
module Machine {
  type int32 = x: int | -0x8000_0000 <= x < 0x8000_0000
  type uint32 = x: int | 0 <= x <= UINT32_MAX
  type int64 = x: int | -0x8000_0000_0000_0000 <= x < 0x8000_0000_0000_0000
  type uint8 = x: int | 0 <= x < 0x100

  const UINT32_MAX := 0xFFFF_FFFF
  const BATCH_SIZE: nat := 4096

  /** The largest row count for which no int64 sum of int32 rows can overflow. */
  const MAX_ROWS: nat := 0x1_0000_0000

  datatype Option<+T> = None | Some(value: T)

  /** Two's complement wrap-around of a 64-bit lane. */
  function Wrap64(x: int): (r: int64)
    ensures -0x8000_0000_0000_0000 <= x < 0x8000_0000_0000_0000 ==> r == x
    ensures (r - x) % 0x1_0000_0000_0000_0000 == 0
  {
    (x + 0x8000_0000_0000_0000) % 0x1_0000_0000_0000_0000 - 0x8000_0000_0000_0000
  }
}
