/*******************************************************************************
 *  Calendar: the parts of .NET's DateTime, DateTimeOffset and TimeSpan that
 *  the time-zone code leans on.  A DateTime is a count of 100-nanosecond
 *  ticks since 0001-01-01 in the proleptic Gregorian calendar, from 0 up to
 *  the last tick of 9999-12-31, with a kind.
 *******************************************************************************/

module Calendar {
  import opened Common

  const TicksPerMillisecond: int := 10_000
  const TicksPerSecond: int := 10_000_000
  const TicksPerMinute: int := 600_000_000
  const TicksPerHour: int := 36_000_000_000
  const TicksPerDay: int := 864_000_000_000

  /** The days from 0001-01-01 to 10000-01-01. */
  const DaysTo10000: int := 3_652_059

  /** DateTime.MaxValue.Ticks: the last tick of 9999-12-31. */
  const MaxTicks: int := 3_155_378_975_999_999_999

  /** TimeSpan.MaxSeconds: the whole seconds an Int64 count of ticks can hold. */
  const MaxSeconds: int := 922_337_203_685

  type Ticks = t: int | 0 <= t <= MaxTicks

  /** DateTimeKind: Unspecified = 0, Utc = 1, Local = 2. */
  datatype DateTimeKind = Unspecified | Utc | Local

  datatype DateTime = DateTime(ticks: Ticks, kind: DateTimeKind)

  const MinValue: DateTime := DateTime(0, Unspecified)
  const MaxValue: DateTime := DateTime(MaxTicks, Unspecified)

  /** A DateTimeOffset: the UTC instant and the offset of its clock, in whole minutes. */
  datatype DateTimeOffset = DateTimeOffset(utcTicks: Ticks, offsetMinutes: int)

  const MinOffsetValue: DateTimeOffset := DateTimeOffset(0, 0)
  const MaxOffsetValue: DateTimeOffset := DateTimeOffset(MaxTicks, 0)

  /** The largest offset a DateTimeOffset accepts: 14 hours. */
  const MaxOffsetMinutes: int := 14 * 60

  predicate IsLeapYear(y: int)
  {
    y % 4 == 0 && (y % 100 != 0 || y % 400 == 0)
  }

  /** The days before the first of each month, and before the next year at index 12. */
  const DaysToMonth365: seq<int> := [0, 31, 59, 90, 120, 151, 181, 212, 243, 273, 304, 334, 365]
  const DaysToMonth366: seq<int> := [0, 31, 60, 91, 121, 152, 182, 213, 244, 274, 305, 335, 366]

  predicate ValidYearMonth(y: int, m: int)
  {
    1 <= y <= 9999 && 1 <= m <= 12
  }

  function DaysBeforeMonth(y: int, m: int): (r: nat)
    requires 1 <= m <= 13
    ensures r <= 366
  {
    if IsLeapYear(y) then DaysToMonth366[m - 1] else DaysToMonth365[m - 1]
  }

  /** DateTime.DaysInMonth. */
  function DaysInMonth(y: int, m: int): (r: int)
    requires 1 <= m <= 12
    ensures 28 <= r <= 31
    ensures DaysBeforeMonth(y, m) + r == DaysBeforeMonth(y, m + 1)
  {
    DaysBeforeMonth(y, m + 1) - DaysBeforeMonth(y, m)
  }

  /** The days from 0001-01-01 to the first of year `y`. */
  function DaysToYear(y: int): (r: nat)
    requires y >= 1
  {
    var n := y - 1;
    365 * n + n / 4 - n / 100 + n / 400
  }

  /** The days from 0001-01-01 to the given day of the month. */
  function DayNumber(y: int, m: int, d: int): (r: nat)
    requires 1 <= y && 1 <= m <= 12 && 1 <= d
  {
    DaysToYear(y) + DaysBeforeMonth(y, m) + d - 1
  }

  predicate ValidDate(y: int, m: int, d: int)
  {
    ValidYearMonth(y, m) && 1 <= d <= DaysInMonth(y, m)
  }

  predicate ValidTimeOfDay(h: int, mi: int, s: int, ms: int)
  {
    0 <= h < 24 && 0 <= mi < 60 && 0 <= s < 60 && 0 <= ms < 1000
  }

  /** Every day of years 1 to 9999 comes before 10000-01-01. */
  lemma DayNumberBound(y: int, m: int, d: int)
    requires ValidDate(y, m, d)
    ensures DayNumber(y, m, d) < DaysTo10000
  {
    var n := y - 1;
    assert DaysBeforeMonth(y, m) + d - 1 < DaysBeforeMonth(y, 13);
    if y < 9999 {
      assert n / 400 <= n / 100;
      assert n / 4 <= 2499;
    } else {
      assert DaysToYear(y) == 3_651_694;
      assert !IsLeapYear(y);
    }
  }

  /** The ticks of a time of day: less than one day. */
  function TimeOfDayTicks(h: int, mi: int, s: int, ms: int): (r: nat)
    requires ValidTimeOfDay(h, mi, s, ms)
    ensures r < TicksPerDay
  {
    ((h * 60 + mi) * 60 + s) * TicksPerSecond + ms * TicksPerMillisecond
  }

  /**
   * new DateTime(year, month, day, hour, minute, second, millisecond, kind):
   * ArgumentOutOfRange unless every field is in range.
   */
  function NewDate(y: int, m: int, d: int, h: int, mi: int, s: int, ms: int, kind: DateTimeKind): (r: Result<DateTime>)
    ensures r.Ok? <==> ValidDate(y, m, d) && ValidTimeOfDay(h, mi, s, ms)
    ensures r.Err? ==> r.error == ArgumentOutOfRange
    ensures r.Ok? ==> r.value.kind == kind
  {
    if !ValidDate(y, m, d) || !ValidTimeOfDay(h, mi, s, ms) then Err(ArgumentOutOfRange)
    else
      DayNumberBound(y, m, d);
      Ok(DateTime(DayNumber(y, m, d) * TicksPerDay + TimeOfDayTicks(h, mi, s, ms), kind))
  }

  /** DateTime.DayOfWeek: Sunday = 0, ..., Saturday = 6; 0001-01-01 was a Monday. */
  function DayOfWeek(t: DateTime): (r: int)
    ensures 0 <= r < 7
  {
    (t.ticks / TicksPerDay + 1) % 7
  }

  /** The weekday of a calendar date. */
  function WeekdayOf(y: int, m: int, d: int): (r: int)
    requires 1 <= y && 1 <= m <= 12 && 1 <= d
    ensures 0 <= r < 7
  {
    (DayNumber(y, m, d) + 1) % 7
  }

  /** A DateTime built from a date falls on that date, whatever its time of day. */
  lemma NewDateDay(y: int, m: int, d: int, h: int, mi: int, s: int, ms: int, kind: DateTimeKind)
    requires NewDate(y, m, d, h, mi, s, ms, kind).Ok?
    ensures NewDate(y, m, d, h, mi, s, ms, kind).value.ticks / TicksPerDay == DayNumber(y, m, d)
    ensures DayOfWeek(NewDate(y, m, d, h, mi, s, ms, kind).value) == WeekdayOf(y, m, d)
  {
    var t := TimeOfDayTicks(h, mi, s, ms);
    var n := DayNumber(y, m, d);
    assert NewDate(y, m, d, h, mi, s, ms, kind).value.ticks == n * TicksPerDay + t;
    assert (n * TicksPerDay + t) / TicksPerDay == n;
  }

  /** Each day later in the month is one weekday later. */
  lemma WeekdayStep(y: int, m: int, d: int, k: nat)
    requires 1 <= y && 1 <= m <= 12 && 1 <= d
    ensures WeekdayOf(y, m, d + k) == (WeekdayOf(y, m, d) + k) % 7
  {
    var a := DayNumber(y, m, d) + 1;
    assert DayNumber(y, m, d + k) + 1 == a + k;
    assert a == 7 * (a / 7) + a % 7;
    assert a + k == 7 * (a / 7) + (a % 7 + k);
  }

  /** The value within the DateTime range closest to `t`. */
  function Clamp(t: int): (r: Ticks)
    ensures 0 <= t <= MaxTicks ==> r == t
    ensures t > MaxTicks ==> r == MaxTicks
    ensures t < 0 ==> r == 0
  {
    if t > MaxTicks then MaxTicks else if t < 0 then 0 else t
  }

  /**
   * new TimeSpan(hours, minutes, seconds).Ticks: the total seconds must lie
   * within what an Int64 count of ticks can hold, else ArgumentOutOfRange.
   */
  function TimeSpanTicks(hours: int32, minutes: int32, seconds: int32): (r: Result<int64>)
    ensures r.Ok? <==> -MaxSeconds <= hours * 3600 + minutes * 60 + seconds <= MaxSeconds
    ensures r.Ok? ==> r.value == (hours * 3600 + minutes * 60 + seconds) * TicksPerSecond
    ensures r.Err? ==> r.error == ArgumentOutOfRange
  {
    var totalSeconds := hours * 3600 + minutes * 60 + seconds;
    if totalSeconds > MaxSeconds || totalSeconds < -MaxSeconds then Err(ArgumentOutOfRange)
    else Ok(totalSeconds * TicksPerSecond)
  }

  /** A count of minutes as a TimeSpan never overflows. */
  lemma MinutesFit(minutes: int32)
    ensures TimeSpanTicks(0, minutes, 0) == Ok(minutes * TicksPerMinute)
  {
  }

  /** TimeSpan.Hours: the hours component, truncated toward zero and signed like the span. */
  function TimeSpanHours(ticks: int64): (r: int)
    ensures -23 <= r <= 23
    ensures ticks >= 0 ==> r >= 0
    ensures ticks <= 0 ==> r <= 0
  {
    if ticks >= 0 then (ticks / TicksPerHour) % 24
    else -((-(ticks as int) / TicksPerHour) % 24)
  }
}
