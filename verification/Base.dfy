/** Types shared by every module: bytes, machine words and optional results. */
module Base {
  type byte = x: int | 0 <= x < 256
  type bytes = seq<byte>

  const TWO64: nat := 0x1_0000_0000_0000_0000
  type uint64 = x: int | 0 <= x < 0x1_0000_0000_0000_0000

  /** A result, or the single tagged failure that stands for a returned error. */
  datatype Option<+T> = None | Some(value: T)

  /** uint64 addition, with its wrap-around. */
  function Add64(a: uint64, b: uint64): uint64 {
    (a + b) % TWO64
  }
}
