/** How an instant crosses between the front end and the API: the browser
    holds JavaScript milliseconds since 1970-01-01, the backend holds .NET
    ticks (100 ns) since 0001-01-01. Both sides are taken to be in one time
    zone. */
module WireTime {
  const TicksPerMs: int := 10_000

  /** 1970-01-01T00:00:00 in ticks. */
  const EpochTicks: int := 621_355_968_000_000_000

  /** An instant the browser sends, as the API reads it. */
  function MsToTicks(ms: int): (ticks: int)
    ensures ticks - EpochTicks == ms * TicksPerMs
  {
    EpochTicks + ms * TicksPerMs
  }

  /** An instant the API sends, as `new Date(...)` reads it: the sub-millisecond
      digits are dropped, rounding towards the past. */
  function TicksToMs(ticks: int): (ms: int)
    ensures ms * TicksPerMs <= ticks - EpochTicks < (ms + 1) * TicksPerMs
  {
    (ticks - EpochTicks) / TicksPerMs
  }

  /** Sending an instant from the browser and back is lossless, and an
      instant coming from the API is moved back by less than a millisecond. */
  lemma RoundTrips(ms: int, ticks: int)
    ensures TicksToMs(MsToTicks(ms)) == ms
    ensures MsToTicks(TicksToMs(ticks)) <= ticks < MsToTicks(TicksToMs(ticks)) + TicksPerMs
  {
  }

  /** Dropping the sub-millisecond digits never reverses two instants, and
      only merges instants less than a millisecond apart. */
  lemma TicksToMsMonotone(a: int, b: int)
    ensures a <= b ==> TicksToMs(a) <= TicksToMs(b)
    ensures TicksToMs(a) == TicksToMs(b) ==> -TicksPerMs < a - b < TicksPerMs
  {
  }
}
