/**
 * The slice of Python's `datetime` that the scheduler relies on.
 *
 * A calendar date is its proleptic Gregorian ordinal, as returned by
 * `date.toordinal()` (0001-01-01 is day 1, a Monday). A time of day is the
 * number of minutes since midnight. A `datetime` is a pair of the two, and
 * for comparisons and `timedelta` arithmetic it is read as an instant: a
 * count of minutes on one global time line.
 */
module Calendar {

  type Date = int

  const MinutesPerDay: int := 1440

  type Time = m: int | 0 <= m < MinutesPerDay

  datatype DateTime = DateTime(date: Date, time: Time)

  /** `date.weekday()`: Monday is 0, ..., Friday is 4, Sunday is 6. */
  function Weekday(d: Date): (w: int)
    ensures 0 <= w < 7
  {
    (d + 6) % 7
  }

  /** `time(h, m)` as minutes since midnight. */
  function Clock(h: int, m: int): (t: Time)
    requires 0 <= h < 24 && 0 <= m < 60
  {
    h * 60 + m
  }

  /** The instant of a datetime, in minutes. */
  function Instant(dt: DateTime): int
  {
    dt.date * MinutesPerDay + dt.time
  }

  /** `a <= b` on datetimes. */
  predicate NotAfter(a: DateTime, b: DateTime)
  {
    Instant(a) <= Instant(b)
  }

  /** `dt + timedelta(days=1)`. */
  function NextDay(dt: DateTime): (r: DateTime)
    ensures Instant(r) == Instant(dt) + MinutesPerDay
    ensures r.date == dt.date + 1 && r.time == dt.time
  {
    DateTime(dt.date + 1, dt.time)
  }

  /** Datetime comparison is the lexicographic order on (date, time). */
  lemma {:induction false} NotAfterIsLexicographic(a: DateTime, b: DateTime)
    ensures NotAfter(a, b) <==> a.date < b.date || (a.date == b.date && a.time <= b.time)
  {
    if a.date < b.date {
      assert a.date * MinutesPerDay + MinutesPerDay <= b.date * MinutesPerDay;
    } else if a.date > b.date {
      assert b.date * MinutesPerDay + MinutesPerDay <= a.date * MinutesPerDay;
    }
  }

  /** The weekday advances by one, modulo a week, from one day to the next. */
  lemma WeekdayOfNextDay(d: Date)
    ensures Weekday(d + 1) == (Weekday(d) + 1) % 7
  {
  }
}
