/**
 * Discord snowflake identifiers: a 64-bit unsigned value whose bits 63..22
 * hold a timestamp in milliseconds since the Discord epoch (2015-01-01 UTC),
 * and whose bits 21..0 hold the worker id, the process id and an increment.
 *
 * `Unix` decodes the timestamp as the Go code does: an unsigned shift right
 * by 22 (floor division by 2^22), a uint64 addition of the epoch, then a
 * conversion to int64.  The widths are written out; the lemmas show neither
 * the addition nor the conversion ever wraps.  The result is in
 * milliseconds, which is what the code and its tests compute (its doc
 * comment says seconds).
 */
module Snowflake {
  import opened GoInts

  const TwoTo22: int := 0x40_0000
  const TwoTo42: int := 0x400_0000_0000

  /** The Discord epoch, 2015-01-01T00:00:00Z, in Unix milliseconds. */
  const DiscordEpoch: int := 1420070400000

  /** Go's `a + b` on uint64: addition modulo 2^64. */
  function AddUint64(a: Uint64, b: Uint64): Uint64
  {
    (a + b) % TwoTo64
  }

  /** Go's conversion `int64(x)` of a uint64: the same bits read as two's complement. */
  function ToInt64(x: Uint64): Int64
  {
    if x < TwoTo63 then x else x - TwoTo64
  }

  /** `s >> 22` on a uint64. */
  function ShiftRight22(s: Uint64): Uint64
  {
    s / TwoTo22
  }

  /** The creation time of a snowflake, in Unix milliseconds. */
  function Unix(s: Uint64): (ms: Int64)
    ensures ms == s / TwoTo22 + DiscordEpoch
    ensures DiscordEpoch <= ms <= DiscordEpoch + TwoTo42 - 1
  {
    ToInt64(AddUint64(ShiftRight22(s), DiscordEpoch))
  }

  /** Only the timestamp bits 63..22 matter: any worker, process and increment bits give the same time. */
  lemma UnixIgnoresLowBits(s: Uint64, low: int)
    requires 0 <= low < TwoTo22
    ensures s - s % TwoTo22 + low < TwoTo64
    ensures Unix(s - s % TwoTo22 + low) == Unix(s)
  {
    var t := s - s % TwoTo22 + low;
    assert t == (s / TwoTo22) * TwoTo22 + low;
  }

  /** A later snowflake never decodes to an earlier time. */
  lemma UnixMonotone(s1: Uint64, s2: Uint64)
    requires s1 <= s2
    ensures Unix(s1) <= Unix(s2)
  {
  }

  /** The example snowflake of Discord's documentation. */
  lemma UnixDocumentationExample()
    ensures Unix(175928847299117063) == 1462015105796
  {
  }

  lemma UnixSecondExample()
    ensures Unix(212581406344216578) == 1470753756844
  {
  }
}
