/** The C type int. */
module Int32 {

  const INT_MAX: int := 0x7FFF_FFFF

  /** runcount + 1, wrapping. */
  function Plus1(n: int): int {
    if n == INT_MAX then -INT_MAX - 1 else n + 1
  }

  /** An unsigned value stored into an int. */
  function Signed(n: nat): int {
    var low := n % 0x1_0000_0000;
    if low > INT_MAX then low - 0x1_0000_0000 else low
  }
}
