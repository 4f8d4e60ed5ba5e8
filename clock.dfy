/** Calendar arithmetic used by the date filters of the event repository.
    A timestamp is a count of microseconds since 1970-01-01T00:00:00 UTC (the
    resolution of a Python `datetime`); a date is a count of days since
    1970-01-01. All combinations are made in UTC, as the repository does. */
module Clock {

  type Timestamp = int
  type Date = int

  const MicrosPerSecond: int := 1_000_000
  const MicrosPerMinute: int := 60 * MicrosPerSecond
  const MicrosPerHour: int := 60 * MicrosPerMinute
  const MicrosPerDay: int := 24 * MicrosPerHour

  /** A wall-clock time of day, as `datetime.time(hour, minute, second, microsecond)`;
      the constructor accepts only these ranges. */
  predicate IsTimeOfDay(hour: int, minute: int, second: int, micro: int) {
    0 <= hour <= 23 && 0 <= minute <= 59 && 0 <= second <= 59 && 0 <= micro <= 999_999
  }

  /** `datetime.combine(d, time(hour, minute, second, micro), tzinfo=utc)`. */
  function Combine(d: Date, hour: int, minute: int, second: int, micro: int): (t: Timestamp)
    requires IsTimeOfDay(hour, minute, second, micro)
    ensures StartOfDay(d) <= t < StartOfDay(d + 1)
  {
    d * MicrosPerDay + hour * MicrosPerHour + minute * MicrosPerMinute + second * MicrosPerSecond + micro
  }

  /** `datetime.combine(d, time.min, tzinfo=utc)`. */
  function StartOfDay(d: Date): Timestamp {
    d * MicrosPerDay
  }

  /** The calendar day (UTC) a timestamp falls on. */
  function DayOf(t: Timestamp): Date {
    t / MicrosPerDay
  }

  /** The hour of the day (UTC) a timestamp falls in. */
  function HourOf(t: Timestamp): int {
    (t % MicrosPerDay) / MicrosPerHour
  }

  lemma ScaledLess(a: int, b: int)
    requires a * MicrosPerDay < b * MicrosPerDay
    ensures a < b
  {
  }

  lemma DayOfUnique(d: Date, t: Timestamp)
    ensures StartOfDay(d) <= t < StartOfDay(d + 1) <==> DayOf(t) == d
  {
    var q := t / MicrosPerDay;
    assert q * MicrosPerDay <= t < (q + 1) * MicrosPerDay;
    if StartOfDay(d) <= t < StartOfDay(d + 1) {
      ScaledLess(d, q + 1);
      ScaledLess(q, d + 1);
    }
  }

  /** The last representable instant of a day, 23:59:59.999999, is one
      microsecond before the next day starts: an inclusive end at that instant
      is the same as an exclusive end at the next midnight. */
  lemma LastMicroOfDay(d: Date)
    ensures Combine(d, 23, 59, 59, 999_999) + 1 == StartOfDay(d + 1)
  {
  }

  /** The one-hour window starting at `hour:00` of day `d` holds exactly the
      instants of that day whose hour is `hour`. */
  lemma HourWindow(d: Date, hour: int, t: Timestamp)
    requires 0 <= hour <= 23
    ensures Combine(d, hour, 0, 0, 0) <= t < Combine(d, hour, 0, 0, 0) + MicrosPerHour
            <==> DayOf(t) == d && HourOf(t) == hour
  {
    DayOfUnique(d, t);
    var r := t - d * MicrosPerDay;
    if DayOf(t) == d {
      assert t % MicrosPerDay == r;
    }
    var start := Combine(d, hour, 0, 0, 0);
    if start <= t < start + MicrosPerHour {
      assert hour * MicrosPerHour <= r < hour * MicrosPerHour + MicrosPerHour;
      assert r / MicrosPerHour == hour;
    }
  }

  /** The inclusive range from `from` 00:00 to `to` 23:59:59.999999 holds
      exactly the instants whose day lies between the two dates. */
  lemma DateRange(from: Date, to: Date, t: Timestamp)
    ensures StartOfDay(from) <= t <= Combine(to, 23, 59, 59, 999_999)
            <==> from <= DayOf(t) <= to
  {
    var q := DayOf(t);
    DayOfUnique(q, t);
    LastMicroOfDay(to);
    if from <= q <= to {
      assert StartOfDay(from) <= StartOfDay(q);
      assert StartOfDay(q + 1) <= StartOfDay(to + 1);
    } else if q < from {
      assert StartOfDay(q + 1) <= StartOfDay(from);
    } else {
      assert StartOfDay(to + 1) <= StartOfDay(q);
    }
  }
}
