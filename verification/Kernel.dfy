/** The words, error codes and limits that several parts of the modules share. */
module Kernel {

  const ENOENT: int := -2
  const ENXIO: int := -6
  const ENOMEM: int := -12
  const EFAULT: int := -14
  const EINVAL: int := -22

  const UNCORE_MAX_SOCKET: nat := 8

  /** One more than the largest count of a 48-bit counter, and than a 64-bit word. */
  const WIDTH: int := 0x1_0000_0000_0000
  const U64: int := 0x1_0000_0000_0000_0000

  function Wrap48(x: int): (r: int)
    ensures 0 <= r < 0x1_0000_0000_0000
  {
    x % 0x1_0000_0000_0000
  }

  function Wrap64(x: int): (r: int)
    ensures 0 <= r < 0x1_0000_0000_0000_0000
  {
    x % 0x1_0000_0000_0000_0000
  }
}
