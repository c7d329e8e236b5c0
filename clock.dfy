/**
  Instants as the portal's `Date` objects see them: milliseconds since
  the epoch, in local time, on days of exactly 24 hours.
 */
module Clock {
  const MinuteMs := 60_000
  const HourMs := 3_600_000
  const DayMs := 86_400_000

  /** Local midnight of the day `t` falls on. */
  function DayStart(t: int): int {
    t - t % DayMs
  }

  /** Milliseconds elapsed since local midnight. */
  function TimeOfDay(t: int): (r: int)
    ensures 0 <= r < DayMs
    ensures t == DayStart(t) + r
  {
    t % DayMs
  }

  /** Milliseconds from midnight to `h:m:s.ms`. */
  function WallClockMs(h: int, m: int, s: int, ms: int): int {
    ((h * 60 + m) * 60 + s) * 1000 + ms
  }

  /**
    `d = new Date(t); d.setHours(h, m, s, ms)`: the same day as `t` at
    the given wall-clock time. `setHours` carries fields that overflow or
    go negative into the neighbouring units, which the sum does as well.
   */
  function SetHours(t: int, h: int, m: int, s: int, ms: int): int {
    DayStart(t) + WallClockMs(h, m, s, ms)
  }

  /** An instant `k` whole days later lies at the same time of day, on a day `k` days later. */
  lemma ShiftByDays(t: int, k: int)
    ensures DayStart(t + k * DayMs) == DayStart(t) + k * DayMs
    ensures TimeOfDay(t + k * DayMs) == TimeOfDay(t)
  {
    var q := (t + k * DayMs) / DayMs;
    assert t + k * DayMs == (t / DayMs + k) * DayMs + t % DayMs;
    assert q == t / DayMs + k;
  }

  /** The start of a day, plus a time of day, is an instant at that time of day. */
  lemma AtTimeOfDay(d: int, x: int)
    requires 0 <= x < DayMs
    ensures DayStart(d * DayMs + x) == d * DayMs
    ensures TimeOfDay(d * DayMs + x) == x
  {
    assert (d * DayMs + x) / DayMs == d;
  }
}
