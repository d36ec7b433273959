/** Time constants of the refresh cycle and the rule that spaces two refreshes.
    Instants and durations are whole nanoseconds, as in Go's time package; instants count
    from Go's zero time. */
module Timing {

  const SECOND: int := 1_000_000_000
  const MINUTE: int := 60 * SECOND
  const HOUR: int := 60 * MINUTE

  const REFRESH_BUFFER: int := 4 * MINUTE
  const REFRESH_INTERVAL: int := 30 * SECOND
  const REFRESH_BURST: int := 2

  // A Go Duration is an int64.
  const MAX_DURATION: int := 0x7fff_ffff_ffff_ffff
  const MIN_DURATION: int := -0x8000_0000_0000_0000

  /** time.Time.Sub: the difference, saturated to the range of a Duration. */
  function Sub(t: int, u: int): int {
    if t - u > MAX_DURATION then MAX_DURATION
    else if t - u < MIN_DURATION then MIN_DURATION
    else t - u
  }

  /** The delay before the next refresh of a certificate that expires at `certExpiry`.
      It is never negative, it is zero exactly when no more than the buffer is left, and whenever
      the buffer is left now it is still left when the delay has passed. */
  function RefreshDuration(now: int, certExpiry: int): (delay: int)
    ensures 0 <= delay <= MAX_DURATION
    ensures delay == 0 <==> certExpiry - now <= REFRESH_BUFFER
    ensures certExpiry - now >= REFRESH_BUFFER ==> now + delay <= certExpiry - REFRESH_BUFFER
  {
    var d := Sub(certExpiry, now);
    if d < HOUR then
      if d < REFRESH_BUFFER then 0 else d - REFRESH_BUFFER
    else
      d / 2
  }

  /** With less than an hour to go the refresh comes when exactly the buffer is left; with more, as
      much time is left after the delay as was waited. */
  lemma RefreshLeaves(now: int, certExpiry: int)
    ensures REFRESH_BUFFER <= certExpiry - now < HOUR ==>
              certExpiry - (now + RefreshDuration(now, certExpiry)) == REFRESH_BUFFER
    ensures HOUR <= certExpiry - now <= MAX_DURATION ==>
              0 <= certExpiry - (now + RefreshDuration(now, certExpiry)) - RefreshDuration(now, certExpiry) <= 1
    ensures MAX_DURATION < certExpiry - now ==> RefreshDuration(now, certExpiry) == MAX_DURATION / 2
  {
  }

  /** The documented cases, in seconds: four hours, one hour, five minutes, three minutes, nothing. */
  lemma DocumentedDelays(now: int)
    ensures RefreshDuration(now, now + 14_400_000_000_000) == 7_200_000_000_000
    ensures RefreshDuration(now, now + 3_600_000_000_000) == 1_800_000_000_000
    ensures RefreshDuration(now, now + 300_000_000_000) == 60_000_000_000
    ensures RefreshDuration(now, now + 180_000_000_000) == 0
    ensures RefreshDuration(now, now) == 0
  {
  }
}
