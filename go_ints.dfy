/** Go's 64-bit integer types, as ranges of unbounded integers. */
module GoInts {

  const TwoTo63: int := 0x8000_0000_0000_0000
  const TwoTo64: int := 0x1_0000_0000_0000_0000

  const MaxInt64: int := TwoTo63 - 1
  const MinInt64: int := -TwoTo63

  type Uint64 = x: int | 0 <= x < TwoTo64

  type Int64 = x: int | MinInt64 <= x <= MaxInt64
}
