/**
 * Calendar dates and wall-clock times at minute resolution.
 *
 * A date (`java.time.LocalDate`) is an integer day number, a time of day
 * (`LocalTime`) is a minute in [0, 1440), and a `LocalDateTime` is the pair.
 * Instants are minutes counted from midnight of day 0, so that comparing two
 * date-times is comparing two integers.
 */
module Clock {

  const MinutesPerHour: int := 60
  const HoursPerDay: int := 24
  const MinutesPerDay: int := 1440

  /** A calendar date as a day number (days since an arbitrary epoch). */
  type Day = int

  /** A time of day: minutes since midnight. */
  type MinuteOfDay = m: int | 0 <= m < 1440

  /** A point in time, in minutes since midnight of day 0. */
  type Instant = int

  /** A `LocalDateTime`: a date and a time of day. */
  datatype DateTime = DateTime(date: Day, time: MinuteOfDay)

  /** The instant a date-time denotes. */
  function ToInstant(t: DateTime): Instant {
    t.date * MinutesPerDay + t.time
  }

  /** `LocalDateTime.of(date, LocalTime.MIDNIGHT)`. */
  function AtMidnight(d: Day): (t: DateTime)
    ensures ToInstant(t) == d * MinutesPerDay
  {
    DateTime(d, 0)
  }

  /**
   * `LocalTime.plusHours(h)`: adds the hours and wraps around midnight,
   * so the result stays a time of day and the date is not carried.
   */
  function TimePlusHours(t: MinuteOfDay, h: int): (r: MinuteOfDay)
    ensures (r - t - h * MinutesPerHour) % MinutesPerDay == 0
  {
    (t + h * MinutesPerHour) % MinutesPerDay
  }

  /** `LocalDateTime.plusDays(d)`: same time of day, `d` days later. */
  function PlusDays(t: DateTime, d: int): (r: DateTime)
    ensures ToInstant(r) == ToInstant(t) + d * MinutesPerDay
  {
    DateTime(t.date + d, t.time)
  }

  /** `LocalDateTime.isAfter`: strictly later on the time line. */
  predicate IsAfter(a: DateTime, b: DateTime) {
    ToInstant(a) > ToInstant(b)
  }

  /**
   * Instants order date-times lexicographically: first by date, then by time
   * of day. This is what lets a date-time comparison be read as a date
   * comparison when the times of day are known.
   */
  lemma InstantOrderIsLexicographic(a: DateTime, b: DateTime)
    ensures IsAfter(a, b) <==> a.date > b.date || (a.date == b.date && a.time > b.time)
  {
  }

  /**
   * One hour after a time of day in the last hour before midnight wraps to
   * the early morning of the same date: the resulting date-time lies BEFORE
   * the original one, not an hour after it.
   */
  lemma PlusOneHourWrapsBeforeMidnight(t: DateTime)
    requires t.time >= MinutesPerDay - MinutesPerHour
    ensures TimePlusHours(t.time, 1) == t.time + MinutesPerHour - MinutesPerDay
    ensures IsAfter(t, DateTime(t.date, TimePlusHours(t.time, 1)))
  {
  }
}
