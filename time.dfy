/** Integer time arithmetic shared by the relative-time labels and the
    notification grouping. Timestamps are whole milliseconds. */
module Time {

  /** Milliseconds in a day, written in script.js as 1000 * 60 * 60 * 24. */
  const DayMs: int := 86400000

  /** `Math.floor(x / d)` for a positive divisor. Dafny's `/` is Euclidean,
      which coincides with flooring when the divisor is positive. */
  function FloorDiv(x: int, d: int): (q: int)
    requires d > 0
    ensures q * d <= x < q * d + d
  {
    x / d
  }
}
