/** Machine integers of the C sources as bounded mathematical integers. */
module Integers {

  const MAX_UINT32: int := 0xFFFF_FFFF
  const MAX_INT64: int := 0x7FFF_FFFF_FFFF_FFFF
  const MAX_UINT64: int := 0xFFFF_FFFF_FFFF_FFFF

  type byte = x: int | 0 <= x < 256
  type uint32 = x: int | 0 <= x <= MAX_UINT32
  type int64 = x: int | -MAX_INT64 - 1 <= x <= MAX_INT64
  type uint64 = x: int | 0 <= x <= MAX_UINT64

  /** A reading of either clock: the clock interface returns a non-negative gint64. */
  type Seconds = x: int | 0 <= x <= MAX_INT64

  function Min(a: int, b: int): int {
    if a < b then a else b
  }

  function Max(a: int, b: int): int {
    if a < b then b else a
  }

  /** Unsigned 64-bit subtraction, which wraps around below zero. */
  function WrappingSub(a: uint64, b: uint64): uint64 {
    if b <= a then a - b else a - b + MAX_UINT64 + 1
  }

  /** Unsigned 64-bit addition clamped to the largest value. */
  function SaturatingAdd(a: uint64, b: uint64): uint64 {
    if a + b <= MAX_UINT64 then a + b else MAX_UINT64
  }
}
