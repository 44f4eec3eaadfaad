/** Go values that several parts share: results that may be absent, and 64-bit integers. */
module GoValues {

  datatype Option<+T> = None | Some(value: T)

  const MAX_INT64 := 0x7FFF_FFFF_FFFF_FFFF
  type int64 = x: int | -MAX_INT64 - 1 <= x <= MAX_INT64

  /** Two's-complement wrap-around of a 64-bit result. */
  function Wrap64(x: int): int64 {
    (x + MAX_INT64 + 1) % 0x1_0000_0000_0000_0000 - MAX_INT64 - 1
  }
}
