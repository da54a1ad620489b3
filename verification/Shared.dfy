/** What several components share: an optional value, and the two readings of a 32-bit word. */
module Shared {

  datatype Option<+T> = None | Some(value: T)

  /** The value an unsigned 32-bit variable keeps, and the signed one with the same bits. */
  function Wrap(x: int): (r: nat)
    ensures r < 0x1_0000_0000
  {
    x % 0x1_0000_0000
  }

  function Signed(x: int): (n: int) {
    if Wrap(x) < 0x8000_0000 then Wrap(x) else Wrap(x) - 0x1_0000_0000
  }
}
