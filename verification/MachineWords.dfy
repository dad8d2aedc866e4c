/** The 32- and 64-bit words of the target machine. */
module MachineWords {

  const TWO32: nat := 0x1_0000_0000
  const UINT_MAX: nat := 0xFFFF_FFFF
  const INT_MAX: nat := 0x7FFF_FFFF

  type uint32 = x: int | 0 <= x < 0x1_0000_0000
  type uint64 = x: int | 0 <= x < 0x1_0000_0000_0000_0000
}
