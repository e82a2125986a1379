/** What the modules share: optional values, results carrying an errno, bytes and the errno constants. */
module Basics {

  datatype Option<+T> = None | Some(value: T)

  datatype Result<+T> = Ok(value: T) | Err(errno: int)

  type Byte = x: int | 0 <= x < 256

  const INT_MAX := 0x7fff_ffff
  const U32 := 0x1_0000_0000
  const U64 := 0x1_0000_0000_0000_0000

  const ENOENT := 2
  const EIO := 5
  const E2BIG := 7
  const ENOMEM := 12
  const EBUSY := 16
  const EINVAL := 22

  function Min(a: int, b: int): int {
    if a < b then a else b
  }

  /** What becomes of one request: it may take effect although its response is lost, or never arrive. */
  datatype Outcome = Delivered | LostReply | Refused

  ghost predicate AllDelivered(net: nat -> Outcome) {
    forall k: nat :: net(k).Delivered?
  }
}
