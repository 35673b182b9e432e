/** Naive Python `date` and `datetime` values as the weather store compares them.

    A date is its proleptic Gregorian day number (the value `date.toordinal()`
    gives); a timestamp is the number of microseconds since midnight of day 0.
    Comparing two timestamps as integers is then comparing them as `datetime`
    values, and `datetime.combine`, `.date()` and `timedelta` become integer
    arithmetic. No time zone is involved: the store's timestamps are naive. */
module Clock {

  const MicrosPerSecond: int := 1_000_000
  const MicrosPerHour: int := 3_600_000_000
  const MicrosPerDay: int := 86_400_000_000

  /** A calendar date, as its day number. */
  type Date = int

  /** A naive timestamp, in microseconds. */
  type DateTime = int

  /** A time of day (`datetime.time`), in microseconds since midnight. */
  type TimeOfDay = t: int | 0 <= t < 86_400_000_000

  /** `time(hour, minute, second, microsecond)`. */
  function Time(hour: int, minute: int, second: int, microsecond: int): (t: TimeOfDay)
    requires 0 <= hour < 24 && 0 <= minute < 60 && 0 <= second < 60 && 0 <= microsecond < MicrosPerSecond
    ensures t / MicrosPerHour == hour
    ensures t % MicrosPerHour / (60 * MicrosPerSecond) == minute
    ensures t % (60 * MicrosPerSecond) / MicrosPerSecond == second
    ensures t % MicrosPerSecond == microsecond
  {
    var t := hour * MicrosPerHour + minute * (60 * MicrosPerSecond) + second * MicrosPerSecond + microsecond;
    var sub := second * MicrosPerSecond + microsecond;
    DivMod(t, hour, minute * (60 * MicrosPerSecond) + sub, MicrosPerHour);
    DivMod(minute * (60 * MicrosPerSecond) + sub, minute, sub, 60 * MicrosPerSecond);
    DivMod(t, hour * 60 + minute, sub, 60 * MicrosPerSecond);
    DivMod(sub, second, microsecond, MicrosPerSecond);
    DivMod(t, (hour * 60 + minute) * 60 + second, microsecond, MicrosPerSecond);
    t
  }

  /** Quotient and remainder are determined by any exact split with a remainder in range. */
  lemma DivMod(x: int, q: int, r: int, m: int)
    requires 0 <= r < m && x == q * m + r
    ensures x / m == q && x % m == r
  {
    var q0, r0 := x / m, x % m;
    assert x == q0 * m + r0 && 0 <= r0 < m;
    if q < q0 {
      MulMono(q + 1, q0, m);
    } else if q0 < q {
      MulMono(q0 + 1, q, m);
    }
  }

  lemma MulMono(a: int, b: int, m: int)
    requires a <= b && 0 < m
    ensures a * m <= b * m
  {
    assert b * m - a * m == (b - a) * m;
  }

  /** `time.min`, that is 00:00:00. */
  const TimeMin: TimeOfDay := 0

  /** `time.max`, that is 23:59:59.999999, the last microsecond of a day. */
  const TimeMax: TimeOfDay := 86_399_999_999

  /** `time.min` and `time.max` are the times 00:00:00 and 23:59:59.999999: the
      first and the last microsecond of a day. */
  lemma TimeMinMax()
    ensures TimeMin == Time(0, 0, 0, 0) && TimeMax == Time(23, 59, 59, 999_999)
    ensures TimeMax + 1 == MicrosPerDay
  {
  }

  /** `timedelta(hours=h)`, in microseconds; for an hour of the day it is the
      time `time(h)` after midnight. */
  function Hours(h: int): (r: int)
    ensures 0 <= h < 24 ==> 0 <= r < MicrosPerDay && r == Time(h, 0, 0, 0)
  {
    h * MicrosPerHour
  }

  /** `dt.date()`: the day whose midnight is at or before `dt`, less than a day earlier. */
  function DateOf(dt: DateTime): (d: Date)
    ensures d * MicrosPerDay <= dt < d * MicrosPerDay + MicrosPerDay
  {
    dt / MicrosPerDay
  }

  /** `dt.time()`: how far `dt` lies past the midnight of its date. */
  function TimeOfDayOf(dt: DateTime): (t: TimeOfDay)
    ensures dt == DateOf(dt) * MicrosPerDay + t
  {
    dt % MicrosPerDay
  }

  /** `datetime.combine(d, t)`: the timestamp whose date is `d` and whose time is `t`. */
  function Combine(d: Date, t: TimeOfDay): (dt: DateTime)
    ensures DateOf(dt) == d && TimeOfDayOf(dt) == t
  {
    d * MicrosPerDay + t
  }

  /** Splitting a timestamp into its date and time and combining them again gives it back. */
  lemma CombineOfParts(dt: DateTime)
    ensures Combine(DateOf(dt), TimeOfDayOf(dt)) == dt
  {
  }

  /** The earliest and latest moments of a day bracket exactly the timestamps of that day. */
  lemma WindowIsDay(dt: DateTime, d: Date)
    ensures Combine(d, TimeMin) <= dt <= Combine(d, TimeMax) <==> DateOf(dt) == d
  {
    var q, t := DateOf(dt), TimeOfDayOf(dt);
    CombineOfParts(dt);
    if q < d {
      assert dt <= q * MicrosPerDay + MicrosPerDay - 1;
      assert q * MicrosPerDay + MicrosPerDay <= d * MicrosPerDay;
    } else if q > d {
      assert d * MicrosPerDay + MicrosPerDay <= q * MicrosPerDay;
    }
  }
}
