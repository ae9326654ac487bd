/** Machine integers and outcomes shared by the models of mkfs.ssdfs and fsck.ssdfs. */
module Types {

  const U16_MAX: nat := 0xFFFF
  const U32_MAX: nat := 0xFFFF_FFFF
  const U64_MAX: nat := 0xFFFF_FFFF_FFFF_FFFF
  const TWO32: nat := 0x1_0000_0000
  const TWO64: nat := 0x1_0000_0000_0000_0000

  /** The widths of the machine integers. */
  lemma Widths()
    ensures U16_MAX + 1 == 256 * 256 && TWO32 == U32_MAX + 1 == (U16_MAX + 1) * (U16_MAX + 1)
    ensures TWO64 == U64_MAX + 1 == TWO32 * TWO32
  {
  }

  type Byte = b: nat | b <= 0xFF
  type U16 = n: nat | n <= U16_MAX
  type U32 = n: nat | n <= U32_MAX
  type U64 = n: nat | n <= U64_MAX

  datatype Errno = EINVAL | ERANGE | E2BIG | ENOSPC | ENODATA | EAGAIN | ENOENT

  /** Outcome of a C function that returns an error code; `Bug` is a BUG_ON() that fired. */
  datatype Status = Success | Error(errno: Errno) | Bug

  datatype Option<+T> = None | Some(value: T)

}
