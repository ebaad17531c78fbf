/** Numbers kept in variables of 32 and 64 bits. */
module MachineWords {

  const W32: int := 0x1_0000_0000
  const W64: int := 0x1_0000_0000_0000_0000

  /** A value kept in a signed 32-bit variable. */
  function ToInt32(n: int): (r: int)
    ensures -W32 / 2 <= r < W32 / 2
  {
    (n + W32 / 2) % W32 - W32 / 2
  }

  lemma Kept(n: int)
    requires -W32 / 2 <= n < W32 / 2
    ensures ToInt32(n) == n
  {
  }
}
