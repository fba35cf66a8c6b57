/*******************************************************************************
 *  TimeZones: TimeZoneInfo's core.  The registry's TZI value is decoded into
 *  the SYSTEMTIME and TimeZoneInformation structures, in place; a daylight
 *  transition date is found by the "n-th weekday of the month" rule; times are
 *  converted between zones with 64-bit tick arithmetic clamped to the DateTime
 *  range; Utc and Local are recognised by reference; and zones are looked up
 *  by id and ordered for display.
 *
 *  The registry, the clock and the current daylight-saving state are inputs:
 *  a zone's current offset takes whether daylight time is in force as a
 *  parameter, and the names the local zone reads from the system are
 *  parameters too.
 *******************************************************************************/

module TimeZones {
  import opened Common
  import opened Calendar
  import Win32Native

  /** TimeZoneInfoOptions: None = 1, NoThrowOnInvalidTime = 2. */
  const OptionsNone: int32 := 1
  const NoThrowOnInvalidTime: int32 := 2

  /** The id of the UTC zone, and the longest id a registry key can have. */
  const UtcId: string := "UTC"
  const MaxKeyLength: int := 255

  /** The little-endian UInt16 values at `i`, `i` + 2, ... */
  function UInt16sAt(b: seq<byte>, i: nat, n: nat): seq<uint16>
    requires i + 2 * n <= |b|
  {
    seq(n, k requires 0 <= k < n => LeUInt16(b, i + 2 * k))
  }

  /** SYSTEMTIME as TimeZoneInfo declares it: eight UInt16 fields, set in place. */
  class SystemTimeStruct {
    var wYear: uint16
    var wMonth: uint16
    var wDayOfWeek: uint16
    var wDay: uint16
    var wHour: uint16
    var wMinute: uint16
    var wSecond: uint16
    var wMilliseconds: uint16

    /** The fields in declaration order. */
    function Fields(): seq<uint16>
      reads this
    {
      [wYear, wMonth, wDayOfWeek, wDay, wHour, wMinute, wSecond, wMilliseconds]
    }

    /** The default value of the structure: every field zero. */
    constructor ()
      ensures Fields() == [0, 0, 0, 0, 0, 0, 0, 0]
    {
      wYear, wMonth, wDayOfWeek, wDay := 0, 0, 0, 0;
      wHour, wMinute, wSecond, wMilliseconds := 0, 0, 0, 0;
    }

    /**
     * SetInfo(info): anything but the structure's 16 bytes is an
     * ArgumentException and changes nothing; otherwise the fields become the
     * eight little-endian UInt16 at 0, 2, ..., 14.
     */
    method SetInfo(info: array<byte>) returns (r: Result<()>)
      modifies this
      ensures r.Ok? <==> info.Length == 16
      ensures r.Err? ==> r.error == Argument && Fields() == old(Fields())
      ensures r.Ok? ==> Fields() == UInt16sAt(info[..], 0, 8)
    {
      if info.Length != 16 {
        return Err(Argument);
      }
      var b := info[..];
      wYear := LeUInt16(b, 0);
      wMonth := LeUInt16(b, 2);
      wDayOfWeek := LeUInt16(b, 4);
      wDay := LeUInt16(b, 6);
      wHour := LeUInt16(b, 8);
      wMinute := LeUInt16(b, 10);
      wSecond := LeUInt16(b, 12);
      wMilliseconds := LeUInt16(b, 14);
      r := Ok(());
    }
  }

  /** Array.Copy(source, at, destination, 0, destination.Length). */
  method CopyWindow(source: array<byte>, at: nat, destination: array<byte>)
    requires source != destination && at + destination.Length <= source.Length
    modifies destination
    ensures destination[..] == source[at .. at + destination.Length]
  {
    for k := 0 to destination.Length
      invariant destination[..k] == source[at .. at + k]
    {
      destination[k] := source[at + k];
    }
  }

  /** Copies bytes at .. at + 15 of `info` into `helper` and sets `date` from them. */
  method ReadDate(info: array<byte>, at: nat, helper: array<byte>, date: SystemTimeStruct)
    requires helper != info && helper.Length == 16 && at + 16 <= info.Length
    modifies helper, date
    ensures date.Fields() == UInt16sAt(info[..], at, 8)
  {
    CopyWindow(info, at, helper);
    var done := date.SetInfo(helper);
    WindowFields(info[..], at);
  }

  /** The fields read from a 16-byte window are the fields read at its offset. */
  lemma WindowFields(b: seq<byte>, at: nat)
    requires at + 16 <= |b|
    ensures UInt16sAt(b[at .. at + 16], 0, 8) == UInt16sAt(b, at, 8)
  {
    var w := b[at .. at + 16];
    forall k | 0 <= k < 8
      ensures LeUInt16(w, 2 * k) == LeUInt16(b, at + 2 * k)
    {
      assert w[2 * k] == b[at + 2 * k] && w[2 * k + 1] == b[at + 2 * k + 1];
    }
  }

  /**
   * TimeZoneInformation as TimeZoneInfo declares it.  The two SYSTEMTIME
   * members are structures embedded in it: they are never replaced, only
   * updated in place, and they are two distinct pieces of storage.
   */
  class TimeZoneInformationStruct {
    var bias: int32
    var standardName: Option<string>
    const standardDate: SystemTimeStruct
    var standardBias: int32
    var daylightName: Option<string>
    const daylightDate: SystemTimeStruct
    var daylightBias: int32

    /** The default value: zero biases and dates, no names. */
    constructor ()
      ensures bias == 0 && standardBias == 0 && daylightBias == 0
      ensures standardName.None? && daylightName.None?
      ensures fresh(standardDate) && fresh(daylightDate) && standardDate != daylightDate
      ensures standardDate.Fields() == [0, 0, 0, 0, 0, 0, 0, 0] && daylightDate.Fields() == [0, 0, 0, 0, 0, 0, 0, 0]
    {
      bias, standardBias, daylightBias := 0, 0, 0;
      standardName, daylightName := None, None;
      standardDate := new SystemTimeStruct();
      daylightDate := new SystemTimeStruct();
    }

    /**
     * SetBytes(info): a missing value is a NullReferenceException and one that
     * is not 44 bytes long an ArgumentException, and neither changes anything.
     * Otherwise the three biases are the little-endian Int32 at 0, 4 and 8,
     * the standard date is read from bytes 12 to 27 and the daylight date from
     * bytes 28 to 43; the names are kept.
     */
    method SetBytes(info: array?<byte>) returns (r: Result<()>)
      requires standardDate != daylightDate
      modifies this, standardDate, daylightDate
      ensures info == null ==> r == Err(NullReference)
      ensures info != null && info.Length != 44 ==> r == Err(Argument)
      ensures r.Ok? <==> info != null && info.Length == 44
      ensures r.Err? ==> unchanged(this) && unchanged(standardDate) && unchanged(daylightDate)
      ensures r.Ok? ==>
        bias == LeInt32(info[..], 0) && standardBias == LeInt32(info[..], 4) && daylightBias == LeInt32(info[..], 8) &&
        standardDate.Fields() == UInt16sAt(info[..], 12, 8) && daylightDate.Fields() == UInt16sAt(info[..], 28, 8) &&
        standardName == old(standardName) && daylightName == old(daylightName)
    {
      if info == null {
        return Err(NullReference);
      }
      if info.Length != 44 {
        return Err(Argument);
      }
      bias := LeInt32(info[..], 0);
      standardBias := LeInt32(info[..], 4);
      daylightBias := LeInt32(info[..], 8);
      var helper := new byte[16];
      ReadDate(info, 12, helper, standardDate);
      ReadDate(info, 28, helper, daylightDate);
      r := Ok(());
    }
  }

  /** Win32Native's reading of SYSTEMTIME fields: each UInt16 taken as an Int16. */
  function SignedSystemTime(f: seq<uint16>): Win32Native.SystemTime
    requires |f| == 8
  {
    Win32Native.SystemTime(Wrap16(f[0]), Wrap16(f[1]), Wrap16(f[2]), Wrap16(f[3]),
                           Wrap16(f[4]), Wrap16(f[5]), Wrap16(f[6]), Wrap16(f[7]))
  }

  /**
   * The library holds two decoders of the registry's TZI value, SetBytes here
   * and RegistryTimeZoneInformation(bytes) in Win32Native.  They accept the
   * same values and read the same biases, and the same dates up to the
   * signedness of the SYSTEMTIME fields.
   */
  lemma TziDecodersAgree(b: seq<byte>)
    requires |b| == 44
    ensures Win32Native.RegistryTimeZoneInformationFromBytes(Some(b)) ==
      Ok(Win32Native.RegistryTimeZoneInformation(LeInt32(b, 0), LeInt32(b, 4), LeInt32(b, 8),
        SignedSystemTime(UInt16sAt(b, 12, 8)), SignedSystemTime(UInt16sAt(b, 28, 8))))
  {
  }

  /** SetBytes reads back every field of a REG_TZI_FORMAT value laid out from a record. */
  lemma SetBytesReadsRegistryBlob(info: Win32Native.RegistryTimeZoneInformation)
    ensures var b := Win32Native.RegistryBlob(info);
      LeInt32(b, 0) == info.bias && LeInt32(b, 4) == info.standardBias && LeInt32(b, 8) == info.daylightBias &&
      SignedSystemTime(UInt16sAt(b, 12, 8)) == info.standardDate &&
      SignedSystemTime(UInt16sAt(b, 28, 8)) == info.daylightDate
  {
    var b := Win32Native.RegistryBlob(info);
    Win32Native.RegistryDecodeEncode(info);
    TziDecodersAgree(b);
  }

  function Min(a: int, b: int): int
  {
    if a <= b then a else b
  }

  /** CreateDate's range checks on the occurrence (1 to 5) and the weekday (0 to 6). */
  predicate ValidRule(wDay: int, wDayOfWeek: int)
  {
    1 <= wDay <= 5 && 0 <= wDayOfWeek <= 6
  }

  /**
   * The day CreateDate starts from, as written: the first day of the month
   * on weekday `w` when the 1st falls on weekday `f`, except that when
   * 0 < `w` < `f` it takes `w` + `f`.
   */
  function FirstDayAsWritten(f: int, w: int): int
  {
    if f == w then 1
    else if w == 0 then 1 + 7 - f
    else if w > f then 1 + w - f
    else w + f
  }

  /** The first day of the month on weekday `w` when the 1st falls on weekday `f`. */
  function FirstDay(f: int, w: int): (r: int)
    requires 0 <= f < 7 && 0 <= w < 7
    ensures 1 <= r <= 7 && (f + r - 1) % 7 == w
  {
    if f == w then 1
    else if w == 0 then 1 + 7 - f
    else if w > f then 1 + w - f
    else 1 + 7 + w - f
  }

  /**
   * Where CreateDate's loop stops: `first` moved on by whole weeks, up to
   * `wDay` - 1 of them, while the next week still falls within the month.
   */
  function OccurrenceDay(first: int, wDay: int, daysInMonth: int): (r: int)
    requires 1 <= first <= daysInMonth && 1 <= wDay
    ensures first <= r <= daysInMonth && (r - first) % 7 == 0
    ensures r == first + 7 * (wDay - 1) || (r < first + 7 * (wDay - 1) && r + 7 > daysInMonth)
  {
    first + 7 * Min(wDay - 1, (daysInMonth - first) / 7)
  }

  /**
   * CreateDate's loop: adds a week while fewer than `wDay` occurrences have
   * been counted and a week later is still in the month.
   */
  method AdvanceWeeks(first: int, wDay: int, daysInMonth: int) returns (day: int)
    requires 1 <= first <= daysInMonth && 1 <= wDay
    ensures day == OccurrenceDay(first, wDay, daysInMonth)
  {
    var occurre := 1;
    day := first;
    while occurre < wDay && day <= daysInMonth - 7
      invariant 1 <= occurre <= wDay
      invariant day == first + 7 * (occurre - 1) && day <= daysInMonth
      decreases wDay - occurre
    {
      day := day + 7;
      occurre := occurre + 1;
    }
    assert occurre - 1 <= (daysInMonth - first) / 7;
    assert occurre < wDay ==> (daysInMonth - first) / 7 < occurre;
  }

  /** The day of the month the rule picks, from the weekday of the 1st. */
  function RuleDay(y: int, m: int, wDay: int, wDayOfWeek: int, asWritten: bool): (d: int)
    requires ValidRule(wDay, wDayOfWeek) && ValidYearMonth(y, m)
    ensures 1 <= d <= DaysInMonth(y, m)
  {
    var f := WeekdayOf(y, m, 1);
    var first := if asWritten then FirstDayAsWritten(f, wDayOfWeek) else FirstDay(f, wDayOfWeek);
    OccurrenceDay(first, wDay, DaysInMonth(y, m))
  }

  /**
   * The daylight transition date rule: the `wDay`-th `wDayOfWeek` of the
   * month, or its last one when `wDay` is 5 (or otherwise past the end),
   * at the given time, as a Local DateTime; ArgumentOutOfRange for a rule,
   * month, year or time of day out of range.
   */
  function DateRule(y: int, m: int, wDay: int, wDayOfWeek: int, h: int, mi: int, s: int, ms: int): (r: Result<DateTime>)
    ensures r.Ok? <==> ValidRule(wDay, wDayOfWeek) && ValidYearMonth(y, m) && ValidTimeOfDay(h, mi, s, ms)
    ensures r.Err? ==> r.error == ArgumentOutOfRange
  {
    if !ValidRule(wDay, wDayOfWeek) || !ValidYearMonth(y, m) then Err(ArgumentOutOfRange)
    else NewDate(y, m, RuleDay(y, m, wDay, wDayOfWeek, false), h, mi, s, ms, Local)
  }

  /** The same rule as the code computes it. */
  function DateRuleAsWritten(y: int, m: int, wDay: int, wDayOfWeek: int, h: int, mi: int, s: int, ms: int): (r: Result<DateTime>)
    ensures r.Ok? <==> ValidRule(wDay, wDayOfWeek) && ValidYearMonth(y, m) && ValidTimeOfDay(h, mi, s, ms)
    ensures r.Err? ==> r.error == ArgumentOutOfRange
  {
    if !ValidRule(wDay, wDayOfWeek) || !ValidYearMonth(y, m) then Err(ArgumentOutOfRange)
    else NewDate(y, m, RuleDay(y, m, wDay, wDayOfWeek, true), h, mi, s, ms, Local)
  }

  /** The day of the month of a DateTime known to fall in month `m` of year `y`. */
  function DayOfMonthIn(t: DateTime, y: int, m: int): int
    requires 1 <= y && 1 <= m <= 12
  {
    t.ticks / TicksPerDay - DayNumber(y, m, 1) + 1
  }

  /**
   * CreateDate as the code reads.  The range checks come first, then the
   * weekday of the 1st; the starting day is wrong when 0 < wDayOfWeek < the
   * weekday of the 1st.
   */
  method CreateDateAsWritten(wYear: int, wMonth: int, wDay: int, wDayOfWeek: int,
                             wHour: int, wMinute: int, wSecond: int, wMilliseconds: int)
    returns (r: Result<DateTime>)
    ensures r == DateRuleAsWritten(wYear, wMonth, wDay, wDayOfWeek, wHour, wMinute, wSecond, wMilliseconds)
  {
    if wDay < 1 || wDay > 5 {
      return Err(ArgumentOutOfRange);
    }
    if wDayOfWeek < 0 || wDayOfWeek > 6 {
      return Err(ArgumentOutOfRange);
    }
    if !ValidYearMonth(wYear, wMonth) {
      // DateTime.DaysInMonth and new DateTime(wYear, wMonth, 1) reject these.
      return Err(ArgumentOutOfRange);
    }
    var daysInMonth := DaysInMonth(wYear, wMonth);
    NewDateDay(wYear, wMonth, 1, 0, 0, 0, 0, Unspecified);
    var fDayOfWeek := DayOfWeek(NewDate(wYear, wMonth, 1, 0, 0, 0, 0, Unspecified).value);
    var day := 1;
    if fDayOfWeek != wDayOfWeek {
      if wDayOfWeek == 0 {
        day := day + 7 - fDayOfWeek;
      } else if wDayOfWeek > fDayOfWeek {
        day := day + wDayOfWeek - fDayOfWeek;
      } else if wDayOfWeek < fDayOfWeek {
        day := wDayOfWeek + fDayOfWeek;
      }
    }
    assert day == FirstDayAsWritten(WeekdayOf(wYear, wMonth, 1), wDayOfWeek);
    day := AdvanceWeeks(day, wDay, daysInMonth);
    assert day == RuleDay(wYear, wMonth, wDay, wDayOfWeek, true);
    r := NewDate(wYear, wMonth, day, wHour, wMinute, wSecond, wMilliseconds, Local);
  }

  /** CreateDate with the starting day of the last case corrected to 8 + wDayOfWeek - f. */
  method CreateDate(wYear: int, wMonth: int, wDay: int, wDayOfWeek: int,
                    wHour: int, wMinute: int, wSecond: int, wMilliseconds: int)
    returns (r: Result<DateTime>)
    ensures r == DateRule(wYear, wMonth, wDay, wDayOfWeek, wHour, wMinute, wSecond, wMilliseconds)
  {
    if wDay < 1 || wDay > 5 {
      return Err(ArgumentOutOfRange);
    }
    if wDayOfWeek < 0 || wDayOfWeek > 6 {
      return Err(ArgumentOutOfRange);
    }
    if !ValidYearMonth(wYear, wMonth) {
      return Err(ArgumentOutOfRange);
    }
    var daysInMonth := DaysInMonth(wYear, wMonth);
    NewDateDay(wYear, wMonth, 1, 0, 0, 0, 0, Unspecified);
    var fDayOfWeek := DayOfWeek(NewDate(wYear, wMonth, 1, 0, 0, 0, 0, Unspecified).value);
    var day := 1;
    if fDayOfWeek != wDayOfWeek {
      if wDayOfWeek == 0 {
        day := day + 7 - fDayOfWeek;
      } else if wDayOfWeek > fDayOfWeek {
        day := day + wDayOfWeek - fDayOfWeek;
      } else if wDayOfWeek < fDayOfWeek {
        day := day + 7 + wDayOfWeek - fDayOfWeek;
      }
    }
    assert day == FirstDay(WeekdayOf(wYear, wMonth, 1), wDayOfWeek);
    day := AdvanceWeeks(day, wDay, daysInMonth);
    assert day == RuleDay(wYear, wMonth, wDay, wDayOfWeek, false);
    r := NewDate(wYear, wMonth, day, wHour, wMinute, wSecond, wMilliseconds, Local);
  }

  /**
   * The corrected rule picks a day of the month on the requested weekday:
   * the `wDay`-th one, or the last one when the month has fewer.
   */
  lemma DateRuleIsNthWeekday(y: int, m: int, wDay: int, w: int, h: int, mi: int, s: int, ms: int)
    requires DateRule(y, m, wDay, w, h, mi, s, ms).Ok?
    ensures var t := DateRule(y, m, wDay, w, h, mi, s, ms).value;
      var d := DayOfMonthIn(t, y, m);
      1 <= d <= DaysInMonth(y, m) && t.kind == Local &&
      DayOfWeek(t) == w && WeekdayOf(y, m, d) == w &&
      ((d - 1) / 7 + 1 == wDay || ((d - 1) / 7 + 1 < wDay && d + 7 > DaysInMonth(y, m)))
  {
    var f := WeekdayOf(y, m, 1);
    var first := FirstDay(f, w);
    var dim := DaysInMonth(y, m);
    var j := Min(wDay - 1, (dim - first) / 7);
    var d := RuleDay(y, m, wDay, w, false);
    assert d == first + 7 * j;
    NewDateDay(y, m, d, h, mi, s, ms, Local);
    WeekdayStep(y, m, 1, d - 1);
    WholeWeeks(f + first - 1, j);
    WeeksFromFirst(first, j);
  }

  /** Whole weeks do not change the weekday. */
  lemma WholeWeeks(a: int, j: int)
    ensures (a + 7 * j) % 7 == a % 7
  {
  }

  /** A day of the first week moved on by `j` weeks lies in week `j`. */
  lemma WeeksFromFirst(first: int, j: int)
    requires 1 <= first <= 7 && 0 <= j
    ensures (first + 7 * j - 1) / 7 == j
  {
  }

  /**
   * The rule as written lands on the wrong weekday whenever the requested
   * weekday is neither Sunday nor after the weekday of the 1st, unless the
   * 1st is a Thursday.
   */
  lemma AsWrittenMissesWeekday(y: int, m: int, wDay: int, w: int, h: int, mi: int, s: int, ms: int)
    requires DateRuleAsWritten(y, m, wDay, w, h, mi, s, ms).Ok?
    requires 0 < w < WeekdayOf(y, m, 1) && WeekdayOf(y, m, 1) != 4
    ensures DayOfWeek(DateRuleAsWritten(y, m, wDay, w, h, mi, s, ms).value) != w
  {
    var f := WeekdayOf(y, m, 1);
    var first := FirstDayAsWritten(f, w);
    assert first == w + f;
    var j := Min(wDay - 1, (DaysInMonth(y, m) - first) / 7);
    var d := RuleDay(y, m, wDay, w, true);
    assert d == first + 7 * j;
    NewDateDay(y, m, d, h, mi, s, ms, Local);
    WeekdayStep(y, m, 1, d - 1);
    WholeWeeks(2 * f + w - 1, j);
    assert WeekdayOf(y, m, d) == (2 * f + w - 1) % 7;
    DoubledStart(f, w);
  }

  /** Starting from `w` + `f` lands on weekday 2`f` + `w` - 1, which is `w` only when `f` is 4. */
  lemma DoubledStart(f: int, w: int)
    requires 0 < w < f < 7 && f != 4
    ensures (2 * f + w - 1) % 7 != w
  {
  }

  /**
   * The first Monday of October 2025, whose 1st is a Wednesday: the code
   * gives Saturday the 4th, the rule Monday the 6th.
   */
  lemma FirstMondayOfOctober2025()
    ensures WeekdayOf(2025, 10, 1) == 3
    ensures DateRuleAsWritten(2025, 10, 1, 1, 2, 0, 0, 0) == NewDate(2025, 10, 4, 2, 0, 0, 0, Local)
    ensures DateRule(2025, 10, 1, 1, 2, 0, 0, 0) == NewDate(2025, 10, 6, 2, 0, 0, 0, Local)
    ensures DayOfWeek(DateRuleAsWritten(2025, 10, 1, 1, 2, 0, 0, 0).value) == 6
  {
    assert DayNumber(2025, 10, 1) == 739_524;
    NewDateDay(2025, 10, 4, 2, 0, 0, 0, Local);
  }

  /**
   * GetStartDate and GetEndDate for one SYSTEMTIME, as the code reads: MinValue
   * when its month is zero, CreateDate as written for `year` when its year is
   * zero, and its literal date otherwise.
   */
  function TransitionRule(st: seq<uint16>, year: int): (r: Result<DateTime>)
    requires |st| == 8
  {
    if st[1] == 0 then Ok(MinValue)
    else if st[0] == 0 then DateRuleAsWritten(year, st[1], st[3], st[2], st[4], st[5], st[6], st[7])
    else NewDate(st[0], st[1], st[3], st[4], st[5], st[6], st[7], Local)
  }

  /** The same transition with CreateDate's starting day corrected. */
  function CorrectedTransitionRule(st: seq<uint16>, year: int): (r: Result<DateTime>)
    requires |st| == 8
  {
    if st[1] == 0 then Ok(MinValue)
    else if st[0] == 0 then DateRule(year, st[1], st[3], st[2], st[4], st[5], st[6], st[7])
    else NewDate(st[0], st[1], st[3], st[4], st[5], st[6], st[7], Local)
  }

  /**
   * A recurring rule, as the code reads, yields a local date within its month
   * of the given year.  It falls on the rule's weekday exactly when that
   * weekday is Sunday, is not before the weekday of the 1st, or the 1st is a
   * Thursday; in those cases it is the corrected transition.
   */
  lemma TransitionRuleWeekday(st: seq<uint16>, year: int)
    requires |st| == 8 && st[1] != 0 && st[0] == 0 && TransitionRule(st, year).Ok?
    ensures var t := TransitionRule(st, year).value;
      var f := WeekdayOf(year, st[1], 1);
      var agrees := !(0 < st[2] < f) || f == 4;
      && 1 <= DayOfMonthIn(t, year, st[1]) <= DaysInMonth(year, st[1]) && t.kind == Local
      && (DayOfWeek(t) == st[2] <==> agrees)
      && (agrees ==> TransitionRule(st, year) == CorrectedTransitionRule(st, year))
  {
    var m, wDay, w := st[1] as int, st[3] as int, st[2] as int;
    var f := WeekdayOf(year, m, 1);
    if !(0 < w < f) || f == 4 {
      assert FirstDayAsWritten(f, w) == FirstDay(f, w);
      assert RuleDay(year, m, wDay, w, true) == RuleDay(year, m, wDay, w, false);
      DateRuleIsNthWeekday(year, m, wDay, w, st[4], st[5], st[6], st[7]);
    } else {
      AsWrittenMissesWeekday(year, m, wDay, w, st[4], st[5], st[6], st[7]);
      InMonthAsWritten(year, m, wDay, w, st[4], st[5], st[6], st[7]);
    }
  }

  /** The rule as written picks a local date within the month. */
  lemma InMonthAsWritten(y: int, m: int, wDay: int, w: int, h: int, mi: int, s: int, ms: int)
    requires DateRuleAsWritten(y, m, wDay, w, h, mi, s, ms).Ok?
    ensures var t := DateRuleAsWritten(y, m, wDay, w, h, mi, s, ms).value;
      1 <= DayOfMonthIn(t, y, m) <= DaysInMonth(y, m) && t.kind == Local
  {
    var d := RuleDay(y, m, wDay, w, true);
    NewDateDay(y, m, d, h, mi, s, ms, Local);
  }

  /** With the corrected CreateDate, a recurring rule yields a date on its weekday, within its month. */
  lemma CorrectedTransitionOnWeekday(st: seq<uint16>, year: int)
    requires |st| == 8 && st[1] != 0 && st[0] == 0 && CorrectedTransitionRule(st, year).Ok?
    ensures var t := CorrectedTransitionRule(st, year).value;
      var d := DayOfMonthIn(t, year, st[1]);
      1 <= d <= DaysInMonth(year, st[1]) && DayOfWeek(t) == st[2] && t.kind == Local
  {
    DateRuleIsNthWeekday(year, st[1], st[3], st[2], st[4], st[5], st[6], st[7]);
  }

  /** A transition read from one SYSTEMTIME, for GetStartDate and GetEndDate. */
  method TransitionDate(st: SystemTimeStruct, year: int) returns (r: Result<DateTime>)
    ensures r == TransitionRule(st.Fields(), year)
  {
    if st.wMonth != 0 {
      if st.wYear == 0 {
        r := CreateDateAsWritten(year, st.wMonth, st.wDay, st.wDayOfWeek, st.wHour, st.wMinute, st.wSecond, st.wMilliseconds);
      } else {
        r := NewDate(st.wYear, st.wMonth, st.wDay, st.wHour, st.wMinute, st.wSecond, st.wMilliseconds, Local);
      }
    } else {
      r := Ok(MinValue);
    }
  }

  /** GetStartDate: the start of daylight time in `year`, from the daylight date. */
  method GetStartDate(tzi: TimeZoneInformationStruct, year: int) returns (r: Result<DateTime>)
    ensures r == TransitionRule(tzi.daylightDate.Fields(), year)
  {
    r := TransitionDate(tzi.daylightDate, year);
  }

  /** GetEndDate: the end of daylight time in `year`, from the standard date. */
  method GetEndDate(tzi: TimeZoneInformationStruct, year: int) returns (r: Result<DateTime>)
    ensures r == TransitionRule(tzi.standardDate.Fields(), year)
  {
    r := TransitionDate(tzi.standardDate, year);
  }

  /**
   * A TimeZoneInfo: its id, its TimeZoneInformation (a structure embedded in
   * it, updated in place but never replaced) and its display name.
   */
  class TimeZoneInfo {
    var id: Option<string>
    const tzi: TimeZoneInformationStruct
    var displayName: Option<string>

    /**
     * The private constructor behind CreateCustomTimeZone.  It keeps the id
     * and the two names, stores the hours component of the offset as the
     * bias, and drops the display name.
     */
    constructor (id: Option<string>, baseUtcOffset: int64, displayName: Option<string>,
                 standardDisplayName: Option<string>, daylightDisplayName: Option<string>)
      ensures this.id == id && this.displayName.None?
      ensures fresh(tzi) && fresh(tzi.standardDate) && fresh(tzi.daylightDate)
      ensures tzi.standardDate != tzi.daylightDate
      ensures tzi.bias == TimeSpanHours(baseUtcOffset) && tzi.standardBias == 0 && tzi.daylightBias == 0
      ensures tzi.standardName == standardDisplayName && tzi.daylightName == daylightDisplayName
    {
      var info := new TimeZoneInformationStruct();
      info.daylightName := daylightDisplayName;
      info.standardName := standardDisplayName;
      info.bias := TimeSpanHours(baseUtcOffset);
      this.id := id;
      this.displayName := None;
      this.tzi := info;
    }
  }

  /** CreateCustomTimeZone: a new zone whose daylight name is its standard name. */
  method CreateCustomTimeZone(id: Option<string>, baseUtcOffset: int64, displayName: Option<string>,
                              standardDisplayName: Option<string>) returns (zone: TimeZoneInfo)
    ensures fresh(zone) && fresh(zone.tzi) && zone.id == id && zone.displayName.None?
    ensures zone.tzi.bias == TimeSpanHours(baseUtcOffset) && zone.tzi.standardBias == 0 && zone.tzi.daylightBias == 0
    ensures zone.tzi.standardName == standardDisplayName && zone.tzi.daylightName == standardDisplayName
  {
    zone := new TimeZoneInfo(id, baseUtcOffset, displayName, standardDisplayName, standardDisplayName);
  }

  /**
   * BaseUtcOffset: the standard bias taken as a number of hours; a bias too
   * large for a TimeSpan is an ArgumentOutOfRangeException.
   */
  function BaseUtcOffset(tzi: TimeZoneInformationStruct): (r: Result<int64>)
    reads tzi
    ensures r.Ok? <==> -MaxSeconds <= tzi.standardBias * 3600 <= MaxSeconds
    ensures r.Ok? ==> r.value == tzi.standardBias * TicksPerHour
    ensures r.Err? ==> r.error == ArgumentOutOfRange
  {
    TimeSpanTicks(tzi.standardBias, 0, 0)
  }

  /**
   * CurrentUtcOffset, with whether daylight time is in force as an input:
   * minus the bias, less the daylight bias in daylight time, in minutes, with
   * 32-bit wrap-around.  It is always a whole number of minutes.
   */
  function CurrentUtcOffset(tzi: TimeZoneInformationStruct, isDaylight: bool): (r: int64)
    reads tzi
    ensures r % TicksPerMinute == 0
    ensures Int32Min * TicksPerMinute <= r <= Int32Max * TicksPerMinute
    ensures !isDaylight && tzi.bias != Int32Min ==> r == -tzi.bias * TicksPerMinute
  {
    var minutes := if isDaylight then Wrap32(-(Wrap32(tzi.bias + tzi.daylightBias) as int)) else Wrap32(-(tzi.bias as int));
    MinutesFit(minutes);
    minutes * TicksPerMinute
  }

  /**
   * ConvertUtcToTimeZone: the ticks plus the zone's offset in 64-bit
   * arithmetic, clamped to the DateTime range.
   */
  function ConvertUtcToTimeZone(ticks: int64, offset: int64): (r: DateTime)
    ensures r.kind == Unspecified
    ensures Int64Min <= ticks + offset <= Int64Max ==> r.ticks == Clamp(ticks + offset)
  {
    DateTime(Clamp(Wrap64(ticks + offset)), Unspecified)
  }

  /** ConvertTimeZoneToUtc: the same with the offset subtracted. */
  function ConvertTimeZoneToUtc(ticks: int64, offset: int64): (r: DateTime)
    ensures r.kind == Unspecified
    ensures Int64Min <= ticks - offset <= Int64Max ==> r.ticks == Clamp(ticks - offset)
  {
    DateTime(Clamp(Wrap64(ticks - offset)), Unspecified)
  }

  /** Subtracting an offset undoes adding it, when adding it stayed within the DateTime range. */
  lemma ZoneConversionRoundTrip(ticks: Ticks, offset: int64)
    requires 0 <= ticks + offset <= MaxTicks
    ensures ConvertTimeZoneToUtc(ConvertUtcToTimeZone(ticks, offset).ticks, offset).ticks == ticks
    ensures ConvertUtcToTimeZone(ConvertTimeZoneToUtc(ticks + offset, offset).ticks, offset).ticks == ticks + offset
  {
  }

  /** Clamping keeps the order of times whose shifted ticks do not overflow. */
  lemma ConvertUtcToTimeZoneMonotone(t1: int64, t2: int64, offset: int64)
    requires t1 <= t2 && Int64Min <= t1 + offset && t2 + offset <= Int64Max
    ensures ConvertUtcToTimeZone(t1, offset).ticks <= ConvertUtcToTimeZone(t2, offset).ticks
  {
  }

  /**
   * The process-wide cache of the Utc and Local zones.  A zone converts as
   * Utc or Local only if it is the very instance cached here.
   */
  class CachedData {
    var localZone: TimeZoneInfo?
    var utcZone: TimeZoneInfo?

    constructor ()
      ensures localZone == null && utcZone == null
    {
      localZone, utcZone := null, null;
    }

    /**
     * GetCorrespondingKind: Utc for the cached Utc instance, Local for the
     * cached Local instance, Unspecified for any other zone whatever its
     * contents.
     */
    function GetCorrespondingKind(zone: TimeZoneInfo?): (kind: DateTimeKind)
      reads this
      ensures kind == DateTimeKind.Utc <==> zone == utcZone
      ensures kind == DateTimeKind.Local <==> zone != utcZone && zone == localZone
    {
      if zone == utcZone then DateTimeKind.Utc
      else if zone == localZone then DateTimeKind.Local
      else Unspecified
    }

    /** The Utc property: created on first use as a custom zone with id "UTC" and offset zero, then kept. */
    method Utc() returns (zone: TimeZoneInfo)
      modifies this
      ensures zone == utcZone && localZone == old(localZone)
      ensures old(utcZone) != null ==> zone == old(utcZone)
      ensures old(utcZone) == null ==>
        fresh(zone) && fresh(zone.tzi) && zone.id == Some(UtcId) && zone.tzi.bias == 0 && zone.tzi.standardBias == 0
    {
      if utcZone == null {
        var created := CreateCustomTimeZone(Some(UtcId), 0, Some(UtcId), Some(UtcId));
        utcZone := created;
      }
      zone := utcZone;
    }

    /**
     * The Local property: created on first use from the system's zone, then
     * kept.  The names come from the system; the offset is the system zone's
     * BaseUtcOffset, which is zero because that zone's standard bias is.
     */
    method Local(standardName: Option<string>, displayName: Option<string>, daylightName: Option<string>)
      returns (zone: TimeZoneInfo)
      modifies this
      ensures zone == localZone && utcZone == old(utcZone)
      ensures old(localZone) != null ==> zone == old(localZone)
      ensures old(localZone) == null ==>
        fresh(zone) && fresh(zone.tzi) && zone.id == standardName && zone.tzi.bias == 0 &&
        zone.tzi.standardBias == 0 && zone.tzi.standardName == displayName && zone.tzi.daylightName == daylightName
    {
      if localZone == null {
        var created := new TimeZoneInfo(standardName, 0, None, displayName, daylightName);
        localZone := created;
      }
      zone := localZone;
    }
  }

  /** The flags test of the conversions: (flags & NoThrowOnInvalidTime) == 0. */
  predicate ThrowsOnInvalidTime(flags: int32)
  {
    BitAnd(Unsigned32(flags), NoThrowOnInvalidTime as nat) == 0
  }

  /**
   * The private ConvertTime (`toUtc` false) and ConvertTimeToUtc (`toUtc`
   * true): null zones are rejected; a DateTime whose Kind names a zone other
   * than the source is rejected unless NoThrowOnInvalidTime is set; the
   * source's BaseUtcOffset is taken; a Utc-to-Utc or Local-to-Local
   * conversion returns the input; otherwise the ticks less that offset are
   * shifted by the destination's current offset, clamped, and tagged with the
   * destination's kind.
   */
  function ConvertTimeCore(dateTime: DateTime, source: TimeZoneInfo?, destination: TimeZoneInfo?, flags: int32,
                           cache: CachedData, destinationIsDaylight: bool, toUtc: bool): (r: Result<DateTime>)
    reads cache, if source != null then {source.tzi} else {}, if destination != null then {destination.tzi} else {}
  {
    if source == null || destination == null then Err(ArgumentNull)
    else
      var sourceKind := cache.GetCorrespondingKind(source);
      if ThrowsOnInvalidTime(flags) && dateTime.kind != Unspecified && dateTime.kind != sourceKind then Err(Argument)
      else
        var sourceOffset :- BaseUtcOffset(source.tzi);
        var targetKind := cache.GetCorrespondingKind(destination);
        if dateTime.kind != Unspecified && sourceKind != Unspecified && sourceKind == targetKind then Ok(dateTime)
        else
          var utcTicks := Wrap64(dateTime.ticks - sourceOffset);
          var offset := CurrentUtcOffset(destination.tzi, destinationIsDaylight);
          var converted := if toUtc then ConvertTimeZoneToUtc(utcTicks, offset) else ConvertUtcToTimeZone(utcTicks, offset);
          Ok(DateTime(converted.ticks, targetKind))
  }

  /**
   * The checks of a conversion: null zones are ArgumentNull, and a Kind that
   * does not match the source is an ArgumentException exactly when the flags
   * ask for one.
   */
  lemma ConvertTimeChecks(dateTime: DateTime, source: TimeZoneInfo?, destination: TimeZoneInfo?, flags: int32,
                          cache: CachedData, destinationIsDaylight: bool, toUtc: bool)
    ensures var r := ConvertTimeCore(dateTime, source, destination, flags, cache, destinationIsDaylight, toUtc);
      (source == null || destination == null ==> r == Err(ArgumentNull)) &&
      (source != null && destination != null ==>
        (r == Err(Argument) <==>
          ThrowsOnInvalidTime(flags) && dateTime.kind != Unspecified && dateTime.kind != cache.GetCorrespondingKind(source)) &&
        (r == Err(ArgumentOutOfRange) <==>
          !(ThrowsOnInvalidTime(flags) && dateTime.kind != Unspecified && dateTime.kind != cache.GetCorrespondingKind(source)) &&
          BaseUtcOffset(source.tzi).Err?) &&
        (r.Ok? <==>
          !(ThrowsOnInvalidTime(flags) && dateTime.kind != Unspecified && dateTime.kind != cache.GetCorrespondingKind(source)) &&
          BaseUtcOffset(source.tzi).Ok?))
  {
  }

  /** Converting between the same cached zone, with a matching Kind, gives the input back. */
  lemma ConvertTimeSameZone(dateTime: DateTime, zone: TimeZoneInfo, flags: int32,
                            cache: CachedData, destinationIsDaylight: bool, toUtc: bool)
    requires BaseUtcOffset(zone.tzi).Ok?
    requires dateTime.kind != Unspecified && dateTime.kind == cache.GetCorrespondingKind(zone)
    ensures ConvertTimeCore(dateTime, zone, zone, flags, cache, destinationIsDaylight, toUtc) == Ok(dateTime)
  {
  }

  /**
   * Otherwise a conversion yields the destination's kind, and, while no
   * 64-bit intermediate overflows, the input less the source's base offset
   * moved by the destination's current offset and clamped to the DateTime
   * range.
   */
  lemma ConvertTimeShifts(dateTime: DateTime, source: TimeZoneInfo, destination: TimeZoneInfo, flags: int32,
                          cache: CachedData, destinationIsDaylight: bool, toUtc: bool)
    requires ConvertTimeCore(dateTime, source, destination, flags, cache, destinationIsDaylight, toUtc).Ok?
    requires !(dateTime.kind != Unspecified && cache.GetCorrespondingKind(source) != Unspecified &&
               cache.GetCorrespondingKind(source) == cache.GetCorrespondingKind(destination))
    ensures var r := ConvertTimeCore(dateTime, source, destination, flags, cache, destinationIsDaylight, toUtc).value;
      var utcTicks := dateTime.ticks - source.tzi.standardBias * TicksPerHour;
      var offset := CurrentUtcOffset(destination.tzi, destinationIsDaylight);
      var shifted := if toUtc then utcTicks - offset else utcTicks + offset;
      r.kind == cache.GetCorrespondingKind(destination) &&
      (Int64Min <= utcTicks <= Int64Max && Int64Min <= shifted <= Int64Max ==> r.ticks == Clamp(shifted))
  {
  }

  /**
   * ConvertTime(DateTimeOffset, destination): the UTC instant moved to the
   * destination's current offset; a clock time past either end of the range
   * gives DateTimeOffset.MaxValue or MinValue; an offset beyond 14 hours is
   * rejected by the DateTimeOffset constructor.
   */
  function ConvertTimeOffset(value: DateTimeOffset, destination: TimeZoneInfo?, destinationIsDaylight: bool)
    : (r: Result<DateTimeOffset>)
    reads if destination != null then {destination.tzi} else {}
    ensures destination == null ==> r == Err(ArgumentNull)
  {
    if destination == null then Err(ArgumentNull)
    else
      var offset := CurrentUtcOffset(destination.tzi, destinationIsDaylight);
      var ticks := value.utcTicks + offset;
      if ticks > MaxTicks then Ok(MaxOffsetValue)
      else if ticks < 0 then Ok(MinOffsetValue)
      else if offset / TicksPerMinute < -MaxOffsetMinutes || offset / TicksPerMinute > MaxOffsetMinutes then Err(ArgumentOutOfRange)
      else Ok(DateTimeOffset(value.utcTicks, offset / TicksPerMinute))
  }

  /**
   * Converting a DateTimeOffset keeps the instant and takes the destination's
   * offset, unless the clock time falls outside the range; it fails only for
   * an offset beyond 14 hours.
   */
  lemma ConvertTimeOffsetKeepsInstant(value: DateTimeOffset, destination: TimeZoneInfo, destinationIsDaylight: bool)
    ensures var offset := CurrentUtcOffset(destination.tzi, destinationIsDaylight);
      var clock := value.utcTicks + offset;
      var r := ConvertTimeOffset(value, destination, destinationIsDaylight);
      (clock > MaxTicks ==> r == Ok(MaxOffsetValue)) &&
      (clock < 0 ==> r == Ok(MinOffsetValue)) &&
      (0 <= clock <= MaxTicks ==>
        (r.Ok? <==> -MaxOffsetMinutes * TicksPerMinute <= offset <= MaxOffsetMinutes * TicksPerMinute) &&
        (r.Ok? ==> r.value.utcTicks == value.utcTicks && r.value.offsetMinutes * TicksPerMinute == offset) &&
        (r.Err? ==> r.error == ArgumentOutOfRange))
  {
    var offset := CurrentUtcOffset(destination.tzi, destinationIsDaylight);
    assert offset == (offset / TicksPerMinute) * TicksPerMinute;
  }

  /** The names the system reports for its own zone, which the Local property reads. */
  datatype SystemZoneNames = SystemZoneNames(standardName: Option<string>, displayName: Option<string>, daylightName: Option<string>)

  /** TimeZoneInfo's static state: the cache of the Utc and Local zones. */
  class TimeZoneInfoStatics {
    var cachedData: CachedData

    constructor ()
      ensures fresh(cachedData) && cachedData.utcZone == null && cachedData.localZone == null
    {
      cachedData := new CachedData();
    }

    /** ClearCachedData: a fresh, empty cache; the old Utc and Local instances are forgotten. */
    method ClearCachedData()
      modifies this
      ensures fresh(cachedData) && cachedData.utcZone == null && cachedData.localZone == null
    {
      cachedData := new CachedData();
    }

    /**
     * The public ConvertTime (`toUtc` false) and ConvertTimeToUtc (`toUtc`
     * true) to a destination zone: the source is the cached Utc zone for a
     * Utc DateTime and the cached Local zone otherwise.  A DateTime of zero
     * ticks first clears the cache, so no zone the caller holds is then the
     * cached Utc or Local one and the result is always Unspecified.
     */
    method ConvertToZone(dateTime: DateTime, destination: TimeZoneInfo?, system: SystemZoneNames,
                         destinationIsDaylight: bool, toUtc: bool) returns (r: Result<DateTime>)
      modifies this, cachedData
      ensures destination == null ==> r == Err(ArgumentNull) && cachedData == old(cachedData) && unchanged(cachedData)
      ensures destination != null && dateTime.ticks != 0 ==> cachedData == old(cachedData)
      ensures destination != null ==>
        var source := if dateTime.kind == DateTimeKind.Utc then cachedData.utcZone else cachedData.localZone;
        source != null &&
        r == ConvertTimeCore(dateTime, source, destination, OptionsNone, cachedData, destinationIsDaylight, toUtc)
      ensures destination != null && dateTime.ticks == 0 ==>
        fresh(cachedData) && r.Ok? && r.value.kind == Unspecified
    {
      if destination == null {
        return Err(ArgumentNull);
      }
      if dateTime.ticks == 0 {
        ClearCachedData();
      }
      var cache := cachedData;
      var source;
      if dateTime.kind == DateTimeKind.Utc {
        source := cache.Utc();
      } else {
        source := cache.Local(system.standardName, system.displayName, system.daylightName);
      }
      r := ConvertTimeCore(dateTime, source, destination, OptionsNone, cache, destinationIsDaylight, toUtc);
    }
  }

  /** The outcome of FindSystemTimeZoneById short of the registry lookup. */
  datatype ZoneLookup = UtcZone | RegistryLookup(id: string)

  /**
   * FindSystemTimeZoneById up to the registry lookup: "UTC" in any case is
   * the Utc zone; a null id is ArgumentNull; an empty id, one longer than a
   * registry key or one holding a NUL is TimeZoneNotFound; any other id goes
   * on to the registry.
   */
  function FindSystemTimeZoneById(id: Option<string>): (r: Result<ZoneLookup>)
    ensures r == Ok(UtcZone) <==> id.Some? && EqualsIgnoreCase(id.value, UtcId)
    ensures r == Err(ArgumentNull) <==> id.None?
    ensures r == Err(TimeZoneNotFound) <==>
      id.Some? && !EqualsIgnoreCase(id.value, UtcId) && (|id.value| == 0 || |id.value| > MaxKeyLength || '\0' in id.value)
    ensures r.Ok? && r.value.RegistryLookup? ==>
      id == Some(r.value.id) && 1 <= |r.value.id| <= MaxKeyLength && '\0' !in r.value.id
  {
    if id.Some? && EqualsIgnoreCase(id.value, UtcId) then Ok(UtcZone)
    else if id.None? then Err(ArgumentNull)
    else if |id.value| == 0 || |id.value| > MaxKeyLength || '\0' in id.value then Err(TimeZoneNotFound)
    else Ok(RegistryLookup(id.value))
  }

  /** "utc" and "Utc" name the Utc zone, "UTC " does not. */
  lemma UtcIdIgnoresCase()
    ensures FindSystemTimeZoneById(Some("utc")) == Ok(UtcZone)
    ensures FindSystemTimeZoneById(Some("Utc")) == Ok(UtcZone)
    ensures FindSystemTimeZoneById(Some("UTC ")) == Ok(RegistryLookup("UTC "))
  {
    assert EqualsIgnoreCase("utc", UtcId);
    assert EqualsIgnoreCase("Utc", UtcId);
  }

  /** Ordinal comparison of strings: by UTF-16 code units, a proper prefix first. */
  function OrdinalCompare(a: string, b: string): (r: int)
    ensures -1 <= r <= 1
  {
    if |a| == 0 && |b| == 0 then 0
    else if |a| == 0 then -1
    else if |b| == 0 then 1
    else if a[0] < b[0] then -1
    else if a[0] > b[0] then 1
    else OrdinalCompare(a[1..], b[1..])
  }

  lemma {:induction false} OrdinalAntisymmetric(a: string, b: string)
    ensures OrdinalCompare(a, b) == -OrdinalCompare(b, a)
  {
    if |a| > 0 && |b| > 0 && a[0] == b[0] {
      OrdinalAntisymmetric(a[1..], b[1..]);
    }
  }

  lemma {:induction false} OrdinalZeroIsEqual(a: string, b: string)
    ensures OrdinalCompare(a, b) == 0 <==> a == b
  {
    if |a| > 0 && |b| > 0 && a[0] == b[0] {
      OrdinalZeroIsEqual(a[1..], b[1..]);
      assert a == [a[0]] + a[1..] && b == [b[0]] + b[1..];
    }
  }

  lemma {:induction false} OrdinalTransitive(a: string, b: string, c: string)
    requires OrdinalCompare(a, b) <= 0 && OrdinalCompare(b, c) <= 0
    ensures OrdinalCompare(a, c) <= 0
  {
    if |a| > 0 && |b| > 0 && |c| > 0 && a[0] == b[0] && b[0] == c[0] {
      OrdinalTransitive(a[1..], b[1..], c[1..]);
    }
  }

  /**
   * The comparer on the fields it reads: a larger bias first; equal biases
   * by display name, where a missing name on the left is a
   * NullReferenceException and on the right sorts the left after it.
   */
  function CompareKeys(xBias: int32, xName: Option<string>, yBias: int32, yName: Option<string>): (r: Result<int>)
  {
    if xBias == yBias then
      if xName.None? then Err(NullReference)
      else if yName.None? then Ok(1)
      else Ok(OrdinalCompare(xName.value, yName.value))
    else if xBias > yBias then Ok(-1)
    else Ok(1)
  }

  /** IComparer<TimeZoneInfo>.Compare. */
  function Compare(x: TimeZoneInfo?, y: TimeZoneInfo?): (r: Result<int>)
    reads if x != null then {x, x.tzi} else {}, if y != null then {y, y.tzi} else {}
    ensures x == null || y == null ==> r == Err(NullReference)
    ensures x != null && y != null ==> r == CompareKeys(x.tzi.bias, x.displayName, y.tzi.bias, y.displayName)
  {
    if x == null || y == null then Err(NullReference)
    else CompareKeys(x.tzi.bias, x.displayName, y.tzi.bias, y.displayName)
  }

  /**
   * Zones that all have display names are totally ordered: by descending
   * bias, then by name; the order is antisymmetric, transitive and ties only
   * zones with the same bias and name.
   */
  lemma CompareKeysIsOrder(xb: int32, xn: string, yb: int32, yn: string)
    ensures CompareKeys(xb, Some(xn), yb, Some(yn)).Ok?
    ensures xb > yb ==> CompareKeys(xb, Some(xn), yb, Some(yn)) == Ok(-1)
    ensures CompareKeys(xb, Some(xn), yb, Some(yn)).value == -CompareKeys(yb, Some(yn), xb, Some(xn)).value
    ensures CompareKeys(xb, Some(xn), yb, Some(yn)).value == 0 <==> xb == yb && xn == yn
  {
    OrdinalAntisymmetric(xn, yn);
    OrdinalZeroIsEqual(xn, yn);
  }

  lemma CompareKeysTransitive(xb: int32, xn: string, yb: int32, yn: string, zb: int32, zn: string)
    requires CompareKeys(xb, Some(xn), yb, Some(yn)).value <= 0 && CompareKeys(yb, Some(yn), zb, Some(zn)).value <= 0
    ensures CompareKeys(xb, Some(xn), zb, Some(zn)).value <= 0
  {
    if xb == yb && yb == zb {
      OrdinalTransitive(xn, yn, zn);
    }
  }
}
