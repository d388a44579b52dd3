/** Result types and the fixed-width integers shared by every module. */
module Prelude {

  datatype Option<+T> = None | Some(value: T)

  datatype Result<+T, +E> = Ok(value: T) | Err(error: E)

  const U64_MODULUS: int := 0x1_0000_0000_0000_0000
  const U64_MAX: int := U64_MODULUS - 1

  type u64 = x: int | 0 <= x < 0x1_0000_0000_0000_0000
  type byte = x: int | 0 <= x < 256
  type ValidatorId = u64

  /** A blake3 digest. */
  type HashBytes = h: seq<byte> | |h| == 32 witness seq(32, _ => 0)

  /** Two's complement reduction: what a release build leaves after `+` on u64. */
  function Wrap(x: int): u64 {
    x % U64_MODULUS
  }

  function SaturatingSucc(x: u64): u64 {
    if x == U64_MAX then U64_MAX else x + 1
  }

  function SaturatingSub(x: u64, y: u64): u64 {
    if x < y then 0 else x - y
  }

  function Min(x: int, y: int): int {
    if x <= y then x else y
  }

  function Max(x: int, y: int): int {
    if x <= y then y else x
  }
}
