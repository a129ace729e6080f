/** One clock, counted in nanoseconds. */
module Clock {
  const SECOND: nat := 1_000_000_000

  /** `duration_since` and `elapsed`, which saturate at zero. */
  function Since(now: int, earlier: int): nat {
    if now < earlier then 0 else now - earlier
  }
}
