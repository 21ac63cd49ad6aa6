/** The `DateTime` value of datetime.go and its calendar operations.

    A `DateTime` is an instant, counted in nanoseconds since
    1970-01-01T00:00:00, together with the name of the zone it is shown in.
    Every zone is read at offset zero, so the civil fields are those of UTC.
    Every operation returns a new value; nothing is updated in place. */
module DateTimes {
  import opened Calendar

  /** A zone is known by its name. */
  type TimezoneName = string

  const UTC: TimezoneName := "UTC"

  datatype DateTime = DateTime(instant: int, zone: TimezoneName)

  /** The largest and smallest `time.Duration` (a signed 64-bit count of
      nanoseconds). */
  const MaxDuration: int := 0x7fff_ffff_ffff_ffff
  const MinDuration: int := -0x8000_0000_0000_0000

  /** The last nanosecond of a second. */
  const LastNanosecond: int := 999_999_999

  // ---------------------------------------------------------------------
  // Construction

  /** Civil fields after one carry of a day past the end of its month into
      the following month. */
  function CarryDay(c: Civil): Civil
    requires 1 <= c.month <= 12
  {
    if c.day <= DaysIn(c.year, c.month) then c
    else if c.month == 12 then c.(year := c.year + 1, month := 1, day := c.day - 31)
    else c.(month := c.month + 1, day := c.day - DaysIn(c.year, c.month))
  }

  /** `time.Date` in the given zone: fields out of range are normalised, and
      fields in range are read back unchanged. */
  function NewDateTime(year: int, month: int, day: int, hour: int, minute: int,
                       second: int, nanosecond: int, timezone: TimezoneName): (dt: DateTime)
    ensures dt.zone == timezone
    ensures var c := Civil(year, month, day, hour, minute, second, nanosecond);
      ValidCivil(c) ==> Fields(dt) == c
  {
    var c := Civil(year, month, day, hour, minute, second, nanosecond);
    if ValidCivil(c) then
      CivilOfTimeDate(c);
      DateTime(TimeDate(year, month, day, hour, minute, second, nanosecond), timezone)
    else
      DateTime(TimeDate(year, month, day, hour, minute, second, nanosecond), timezone)
  }

  function NewUTCDateTime(year: int, month: int, day: int, hour: int, minute: int,
                          second: int, nanosecond: int): (dt: DateTime)
    ensures dt.zone == UTC
    ensures var c := Civil(year, month, day, hour, minute, second, nanosecond);
      ValidCivil(c) ==> Fields(dt) == c
  {
    NewDateTime(year, month, day, hour, minute, second, nanosecond, UTC)
  }

  /** `NewDateTime` applied to a record of fields. */
  function FromCivil(c: Civil, timezone: TimezoneName): DateTime {
    NewDateTime(c.year, c.month, c.day, c.hour, c.minute, c.second, c.nanosecond, timezone)
  }

  /** `time.Unix(timestamp, 0).UTC()`. */
  function FromUnixTimestamp(timestamp: int): (dt: DateTime)
    ensures dt.zone == UTC
    ensures UnixTimestamp(dt) == timestamp
    ensures Nanosecond(dt) == 0
  {
    ClockFields(timestamp * NanosPerSecond);
    DivMod(timestamp * NanosPerSecond, NanosPerSecond, timestamp, 0);
    DateTime(timestamp * NanosPerSecond, UTC)
  }

  // ---------------------------------------------------------------------
  // Accessors

  /** All civil fields of `dt`. */
  function Fields(dt: DateTime): Civil {
    CivilOf(dt.instant)
  }

  function Year(dt: DateTime): int {
    Fields(dt).year
  }

  function Month(dt: DateTime): (month: int)
    ensures 1 <= month <= 12
  {
    Fields(dt).month
  }

  function Day(dt: DateTime): (day: int)
    ensures 1 <= day <= DaysIn(Year(dt), Month(dt))
  {
    Fields(dt).day
  }

  function Hour(dt: DateTime): (hour: int)
    ensures 0 <= hour < 24
  {
    Fields(dt).hour
  }

  function Minute(dt: DateTime): (minute: int)
    ensures 0 <= minute < 60
  {
    Fields(dt).minute
  }

  function Second(dt: DateTime): (second: int)
    ensures 0 <= second < 60
  {
    Fields(dt).second
  }

  function Nanosecond(dt: DateTime): (nanosecond: int)
    ensures 0 <= nanosecond < NanosPerSecond
  {
    Fields(dt).nanosecond
  }

  function Timezone(dt: DateTime): TimezoneName {
    dt.zone
  }

  /** The same instant shown in another zone; with every zone at offset
      zero the civil fields stay as they are. */
  function InTimezone(dt: DateTime, timezone: TimezoneName): (r: DateTime)
    ensures r.instant == dt.instant && Timezone(r) == timezone
    ensures Fields(r) == Fields(dt)
  {
    DateTime(dt.instant, timezone)
  }

  /** The (year, month, day) triple. */
  function IsoCalendar(dt: DateTime): (r: (int, int, int))
    ensures 1 <= r.1 <= 12 && 1 <= r.2 <= DaysIn(r.0, r.1)
  {
    (Year(dt), Month(dt), Day(dt))
  }

  /** Seconds since the epoch, rounded down. */
  function UnixTimestamp(dt: DateTime): (seconds: int)
    ensures seconds * NanosPerSecond <= dt.instant < (seconds + 1) * NanosPerSecond
  {
    dt.instant / NanosPerSecond
  }

  /** Day of the week, 0 = Sunday ... 6 = Saturday; 1970-01-01 was a
      Thursday. */
  function WeekDay(dt: DateTime): (weekday: int)
    ensures 0 <= weekday < 7
  {
    (dt.instant / NanosPerDay + 4) % 7
  }

  /** Rebuilds `dt` from its own fields and zone. */
  function Copy(dt: DateTime): (r: DateTime)
    ensures r == dt
  {
    FromCivil(Fields(dt), dt.zone)
  }

  // ---------------------------------------------------------------------
  // Shifts

  /** `time.Time.AddDate`: adds to the year, month and day fields and
      normalises as `time.Date` does. */
  function AddDate(dt: DateTime, years: int, months: int, days: int): DateTime {
    var c := Fields(dt);
    FromCivil(c.(year := c.year + years, month := c.month + months, day := c.day + days), dt.zone)
  }

  /** `time.Time.Add`: moves the instant by a duration. */
  function Add(dt: DateTime, duration: int): DateTime {
    DateTime(dt.instant + duration, dt.zone)
  }

  /** Adding years keeps month and day, except that a February 29 carries
      into March 1 in a year that is not a leap year. */
  function ShiftYears(dt: DateTime, years: int): (r: DateTime)
    ensures r.zone == dt.zone
    ensures Fields(r) == CarryDay(Fields(dt).(year := Fields(dt).year + years))
  {
    AddYearsCarry(dt, years);
    AddDate(dt, years, 0, 0)
  }

  /** Adding months moves the month around the year, carrying whole years,
      and a day past the end of the new month carries into the one after. */
  function ShiftMonths(dt: DateTime, months: int): (r: DateTime)
    ensures r.zone == dt.zone
    ensures Fields(r) == CarryDay(Fields(dt).(year := Fields(dt).year + (Fields(dt).month + months - 1) / 12,
                                              month := (Fields(dt).month + months - 1) % 12 + 1))
  {
    AddDateCarry(dt, 0, months);
    AddDate(dt, 0, months, 0)
  }

  /** Adding days moves the instant by whole days. */
  function ShiftDays(dt: DateTime, days: int): (r: DateTime)
    ensures r.zone == dt.zone
    ensures r.instant == dt.instant + days * NanosPerDay
  {
    InstantOf(dt);
    AddDate(dt, 0, 0, days)
  }

  /** `time.ParseDuration` of a count of nanoseconds: the error for a value
      outside the range of `time.Duration` is discarded, which leaves the
      zero duration. */
  function ParsedDuration(nanos: int): (d: int)
    ensures MinDuration <= d <= MaxDuration
    ensures MinDuration <= nanos <= MaxDuration ==> d == nanos
    ensures !(MinDuration <= nanos <= MaxDuration) ==> d == 0
  {
    if MinDuration <= nanos <= MaxDuration then nanos else 0
  }

  /** Whole-hour shift; a count whose duration overflows leaves `dt` as it
      is. */
  function ShiftHours(dt: DateTime, hours: int): (r: DateTime)
    ensures r.zone == dt.zone
    ensures MinDuration <= hours * NanosPerHour <= MaxDuration ==> r.instant == dt.instant + hours * NanosPerHour
    ensures !(MinDuration <= hours * NanosPerHour <= MaxDuration) ==> r == dt
    ensures Minute(r) == Minute(dt) && Second(r) == Second(dt) && Nanosecond(r) == Nanosecond(dt)
  {
    var k := if ParsedDuration(hours * NanosPerHour) == 0 then 0 else hours;
    WholeHoursKeepMinute(dt.instant, k);
    Add(dt, ParsedDuration(hours * NanosPerHour))
  }

  function ShiftMinutes(dt: DateTime, minutes: int): (r: DateTime)
    ensures r.zone == dt.zone
    ensures MinDuration <= minutes * NanosPerMinute <= MaxDuration ==> r.instant == dt.instant + minutes * NanosPerMinute
    ensures !(MinDuration <= minutes * NanosPerMinute <= MaxDuration) ==> r == dt
    ensures Second(r) == Second(dt) && Nanosecond(r) == Nanosecond(dt)
  {
    var k := if ParsedDuration(minutes * NanosPerMinute) == 0 then 0 else minutes;
    WholeMinutesKeepSecond(dt.instant, k);
    Add(dt, ParsedDuration(minutes * NanosPerMinute))
  }

  function ShiftSeconds(dt: DateTime, seconds: int): (r: DateTime)
    ensures r.zone == dt.zone
    ensures MinDuration <= seconds * NanosPerSecond <= MaxDuration ==> r.instant == dt.instant + seconds * NanosPerSecond
    ensures !(MinDuration <= seconds * NanosPerSecond <= MaxDuration) ==> r == dt
    ensures Nanosecond(r) == Nanosecond(dt)
  {
    var k := if ParsedDuration(seconds * NanosPerSecond) == 0 then 0 else seconds;
    WholeSecondsKeepNanosecond(dt.instant, k);
    Add(dt, ParsedDuration(seconds * NanosPerSecond))
  }

  function ShiftMilliSeconds(dt: DateTime, milliseconds: int): (r: DateTime)
    ensures r.zone == dt.zone
    ensures MinDuration <= milliseconds * 1_000_000 <= MaxDuration ==> r.instant == dt.instant + milliseconds * 1_000_000
    ensures !(MinDuration <= milliseconds * 1_000_000 <= MaxDuration) ==> r == dt
    ensures Nanosecond(r) % 1_000_000 == Nanosecond(dt) % 1_000_000
  {
    var k := if ParsedDuration(milliseconds * 1_000_000) == 0 then 0 else milliseconds;
    ClockFields(dt.instant);
    ClockFields(dt.instant + k * 1_000_000);
    ModOfMod(dt.instant, NanosPerSecond, 1_000_000, 1000);
    ModOfMod(dt.instant + k * 1_000_000, NanosPerSecond, 1_000_000, 1000);
    ModShift(dt.instant, k, 1_000_000);
    Add(dt, ParsedDuration(milliseconds * 1_000_000))
  }

  function ShiftMicroSeconds(dt: DateTime, microseconds: int): (r: DateTime)
    ensures r.zone == dt.zone
    ensures MinDuration <= microseconds * 1_000 <= MaxDuration ==> r.instant == dt.instant + microseconds * 1_000
    ensures !(MinDuration <= microseconds * 1_000 <= MaxDuration) ==> r == dt
    ensures Nanosecond(r) % 1_000 == Nanosecond(dt) % 1_000
  {
    var k := if ParsedDuration(microseconds * 1_000) == 0 then 0 else microseconds;
    ClockFields(dt.instant);
    ClockFields(dt.instant + k * 1_000);
    ModOfMod(dt.instant, NanosPerSecond, 1_000, 1_000_000);
    ModOfMod(dt.instant + k * 1_000, NanosPerSecond, 1_000, 1_000_000);
    ModShift(dt.instant, k, 1_000);
    Add(dt, ParsedDuration(microseconds * 1_000))
  }

  function ShiftNanoseconds(dt: DateTime, nanoseconds: int): (r: DateTime)
    ensures r.zone == dt.zone
    ensures MinDuration <= nanoseconds <= MaxDuration ==> r.instant == dt.instant + nanoseconds
    ensures !(MinDuration <= nanoseconds <= MaxDuration) ==> r == dt
  {
    Add(dt, ParsedDuration(nanoseconds))
  }

  /** Shifts by years, months, days, hours, minutes, seconds and nanoseconds,
      in that order, each applied to the result of the previous one. Once
      the calendar part is done, the clock part only adds durations. */
  function Shift(dt: DateTime, years: int, months: int, days: int, hours: int,
                 minutes: int, seconds: int, nanoseconds: int): (r: DateTime)
    ensures r.zone == dt.zone
    ensures var d := ShiftDays(ShiftMonths(ShiftYears(dt, years), months), days);
      && MinDuration <= hours * NanosPerHour <= MaxDuration
      && MinDuration <= minutes * NanosPerMinute <= MaxDuration
      && MinDuration <= seconds * NanosPerSecond <= MaxDuration
      && MinDuration <= nanoseconds <= MaxDuration
      ==> r.instant == d.instant + hours * NanosPerHour + minutes * NanosPerMinute
                       + seconds * NanosPerSecond + nanoseconds
  {
    var d := ShiftDays(ShiftMonths(ShiftYears(dt, years), months), days);
    ShiftNanoseconds(ShiftSeconds(ShiftMinutes(ShiftHours(d, hours), minutes), seconds), nanoseconds)
  }

  // ---------------------------------------------------------------------
  // Replacing fields

  /** Sets the year; February 29 carries into March 1 in a year that is not
      a leap year. */
  function ReplaceYear(dt: DateTime, year: int): (r: DateTime)
    ensures r.zone == dt.zone
    ensures Fields(r) == CarryDay(Fields(dt).(year := year))
  {
    var c := Fields(dt);
    assert (c.month - 1) / 12 == 0 && (c.month - 1) % 12 + 1 == c.month;
    RebuildCarry(c, c.(year := year), c.(year := year), dt.zone);
    FromCivil(c.(year := year), dt.zone)
  }

  /** Sets the month; a month outside 1..12 carries whole years, and a day
      past the end of the new month carries into the month after. */
  function ReplaceMonth(dt: DateTime, month: int): (r: DateTime)
    ensures r.zone == dt.zone
    ensures var c := Fields(dt);
      Fields(r) == CarryDay(c.(year := c.year + (month - 1) / 12, month := (month - 1) % 12 + 1))
  {
    var c := Fields(dt);
    RebuildCarry(c, c.(month := month), c.(year := c.year + (month - 1) / 12, month := (month - 1) % 12 + 1), dt.zone);
    FromCivil(c.(month := month), dt.zone)
  }

  /** Sets the day: the instant moves by whole days and the clock stays. */
  function ReplaceDay(dt: DateTime, day: int): (r: DateTime)
    ensures r.zone == dt.zone
    ensures r.instant == dt.instant + (day - Day(dt)) * NanosPerDay
    ensures Hour(r) == Hour(dt) && Minute(r) == Minute(dt) && Second(r) == Second(dt) && Nanosecond(r) == Nanosecond(dt)
    ensures 1 <= day <= DaysIn(Year(dt), Month(dt)) ==> Fields(r) == Fields(dt).(day := day)
  {
    var c := Fields(dt);
    RebuildInstant(c, c.(day := day), dt.zone);
    WholeDaysKeepClock(dt.instant, day - c.day);
    FromCivil(c.(day := day), dt.zone)
  }

  /** Sets the hour: the instant moves by whole hours and the finer fields
      stay. */
  function ReplaceHour(dt: DateTime, hour: int): (r: DateTime)
    ensures r.zone == dt.zone
    ensures r.instant == dt.instant + (hour - Hour(dt)) * NanosPerHour
    ensures Minute(r) == Minute(dt) && Second(r) == Second(dt) && Nanosecond(r) == Nanosecond(dt)
    ensures 0 <= hour < 24 ==> Fields(r) == Fields(dt).(hour := hour)
  {
    var c := Fields(dt);
    RebuildInstant(c, c.(hour := hour), dt.zone);
    WholeHoursKeepMinute(dt.instant, hour - c.hour);
    FromCivil(c.(hour := hour), dt.zone)
  }

  function ReplaceMinute(dt: DateTime, minute: int): (r: DateTime)
    ensures r.zone == dt.zone
    ensures r.instant == dt.instant + (minute - Minute(dt)) * NanosPerMinute
    ensures Second(r) == Second(dt) && Nanosecond(r) == Nanosecond(dt)
    ensures 0 <= minute < 60 ==> Fields(r) == Fields(dt).(minute := minute)
  {
    var c := Fields(dt);
    RebuildInstant(c, c.(minute := minute), dt.zone);
    WholeMinutesKeepSecond(dt.instant, minute - c.minute);
    FromCivil(c.(minute := minute), dt.zone)
  }

  function ReplaceSecond(dt: DateTime, second: int): (r: DateTime)
    ensures r.zone == dt.zone
    ensures r.instant == dt.instant + (second - Second(dt)) * NanosPerSecond
    ensures Nanosecond(r) == Nanosecond(dt)
    ensures 0 <= second < 60 ==> Fields(r) == Fields(dt).(second := second)
  {
    var c := Fields(dt);
    RebuildInstant(c, c.(second := second), dt.zone);
    WholeSecondsKeepNanosecond(dt.instant, second - c.second);
    FromCivil(c.(second := second), dt.zone)
  }

  function ReplaceNanosecond(dt: DateTime, nanosecond: int): (r: DateTime)
    ensures r.zone == dt.zone
    ensures r.instant == dt.instant + (nanosecond - Nanosecond(dt))
    ensures 0 <= nanosecond < NanosPerSecond ==> Fields(r) == Fields(dt).(nanosecond := nanosecond)
  {
    var c := Fields(dt);
    RebuildInstant(c, c.(nanosecond := nanosecond), dt.zone);
    FromCivil(c.(nanosecond := nanosecond), dt.zone)
  }

  /** The chain of single-field replacements, year first. Only the year and
      month steps can carry; after them the result is `time.Date` on the
      year and month reached and the requested finer fields. When neither
      of those steps carries, the result is `NewDateTime` on the requested
      fields. */
  function Replace(dt: DateTime, year: int, month: int, day: int, hour: int,
                   minute: int, second: int, nanosecond: int): (r: DateTime)
    ensures r.zone == dt.zone
    ensures var c := Fields(ReplaceMonth(ReplaceYear(dt, year), month));
      r == NewDateTime(c.year, c.month, day, hour, minute, second, nanosecond, dt.zone)
    ensures 1 <= month <= 12 && Day(dt) <= DaysIn(year, Month(dt)) && Day(dt) <= DaysIn(year, month)
      ==> r == NewDateTime(year, month, day, hour, minute, second, nanosecond, dt.zone)
  {
    var ym := ReplaceMonth(ReplaceYear(dt, year), month);
    ReplaceTail(ym, day, hour, minute, second, nanosecond);
    ReplaceNoCarry(dt, year, month);
    ReplaceNanosecond(ReplaceSecond(ReplaceMinute(ReplaceHour(ReplaceDay(ym, day), hour), minute), second), nanosecond)
  }

  // ---------------------------------------------------------------------
  // Floors, ceilings and spans

  function FloorYear(dt: DateTime): (r: DateTime)
    ensures r.zone == dt.zone
    ensures Fields(r) == Civil(Year(dt), 1, 1, 0, 0, 0, 0)
    ensures r.instant <= dt.instant
  {
    var r := Replace(dt, Year(dt), 1, 1, 0, 0, 0, 0);
    InstantOrder(Fields(r), Fields(dt));
    r
  }

  function FloorMonth(dt: DateTime): (r: DateTime)
    ensures r.zone == dt.zone
    ensures Fields(r) == Civil(Year(dt), Month(dt), 1, 0, 0, 0, 0)
    ensures r.instant <= dt.instant
  {
    var r := Replace(dt, Year(dt), Month(dt), 1, 0, 0, 0, 0);
    InstantOrder(Fields(r), Fields(dt));
    r
  }

  /** The start of the day: the instant rounded down to a whole day. */
  function FloorDay(dt: DateTime): (r: DateTime)
    ensures r.zone == dt.zone
    ensures Fields(r) == Civil(Year(dt), Month(dt), Day(dt), 0, 0, 0, 0)
    ensures r.instant == dt.instant - dt.instant % NanosPerDay
  {
    var r := Replace(dt, Year(dt), Month(dt), Day(dt), 0, 0, 0, 0);
    ClockFloor(Fields(dt), Fields(r), NanosPerDay, 0, 1);
    r
  }

  function FloorHour(dt: DateTime): (r: DateTime)
    ensures r.zone == dt.zone
    ensures Fields(r) == Civil(Year(dt), Month(dt), Day(dt), Hour(dt), 0, 0, 0)
    ensures r.instant == dt.instant - dt.instant % NanosPerHour
  {
    var r := Replace(dt, Year(dt), Month(dt), Day(dt), Hour(dt), 0, 0, 0);
    ClockFloor(Fields(dt), Fields(r), NanosPerHour, Hour(dt), 24);
    r
  }

  function FloorMinute(dt: DateTime): (r: DateTime)
    ensures r.zone == dt.zone
    ensures Fields(r) == Civil(Year(dt), Month(dt), Day(dt), Hour(dt), Minute(dt), 0, 0)
    ensures r.instant == dt.instant - dt.instant % NanosPerMinute
  {
    var r := Replace(dt, Year(dt), Month(dt), Day(dt), Hour(dt), Minute(dt), 0, 0);
    ClockFloor(Fields(dt), Fields(r), NanosPerMinute, Hour(dt) * 60 + Minute(dt), 24 * 60);
    r
  }

  function FloorSecond(dt: DateTime): (r: DateTime)
    ensures r.zone == dt.zone
    ensures Fields(r) == Civil(Year(dt), Month(dt), Day(dt), Hour(dt), Minute(dt), Second(dt), 0)
    ensures r.instant == dt.instant - dt.instant % NanosPerSecond
  {
    var r := Replace(dt, Year(dt), Month(dt), Day(dt), Hour(dt), Minute(dt), Second(dt), 0);
    ClockFloor(Fields(dt), Fields(r), NanosPerSecond, (Hour(dt) * 60 + Minute(dt)) * 60 + Second(dt), 24 * 60 * 60);
    r
  }

  function CeilYear(dt: DateTime): (r: DateTime)
    ensures r.zone == dt.zone
    ensures Fields(r) == Civil(Year(dt), 12, 31, 23, 59, 59, LastNanosecond)
    ensures dt.instant <= r.instant
  {
    var r := Replace(dt, Year(dt), 12, 31, 23, 59, 59, LastNanosecond);
    InstantOrder(Fields(dt), Fields(r));
    r
  }

  /** The day `CeilMonth` reaches by shifting one month on, going to the
      first of that month and stepping back a day: the last day of the
      month when the shifted day does not carry, and otherwise the last day
      of the following month. */
  function CeilMonthDay(c: Civil): int
    requires 1 <= c.month <= 12
  {
    var next := NextMonth(c.year, c.month);
    if c.day <= DaysIn(next.0, next.1) then DaysIn(c.year, c.month) else DaysIn(next.0, next.1)
  }

  /** As written: the day is found by shifting one month on, which carries
      past the following month when that month is shorter than the day. */
  function CeilMonth(dt: DateTime): (r: DateTime)
    ensures r.zone == dt.zone
    ensures Fields(r) == Civil(Year(dt), Month(dt), CeilMonthDay(Fields(dt)), 23, 59, 59, LastNanosecond)
  {
    var temp := ShiftDays(ReplaceDay(ShiftMonths(Copy(dt), 1), 1), -1);
    CeilMonthTemp(dt);
    Replace(dt, Year(dt), Month(dt), Day(temp), 23, 59, 59, LastNanosecond)
  }

  /** The last instant of the month of `dt`. */
  function CeilMonthLastDay(dt: DateTime): (r: DateTime)
    ensures r.zone == dt.zone
    ensures Fields(r) == Civil(Year(dt), Month(dt), DaysIn(Year(dt), Month(dt)), 23, 59, 59, LastNanosecond)
    ensures dt.instant <= r.instant
  {
    var r := Replace(dt, Year(dt), Month(dt), DaysIn(Year(dt), Month(dt)), 23, 59, 59, LastNanosecond);
    InstantOrder(Fields(dt), Fields(r));
    r
  }

  function CeilDay(dt: DateTime): (r: DateTime)
    ensures r.zone == dt.zone
    ensures Fields(r) == Civil(Year(dt), Month(dt), Day(dt), 23, 59, 59, LastNanosecond)
    ensures r.instant == FloorDay(dt).instant + NanosPerDay - 1
  {
    var r := Replace(dt, Year(dt), Month(dt), Day(dt), 23, 59, 59, LastNanosecond);
    ClockSpan(Fields(FloorDay(dt)), Fields(r));
    r
  }

  function CeilHour(dt: DateTime): (r: DateTime)
    ensures r.zone == dt.zone
    ensures Fields(r) == Civil(Year(dt), Month(dt), Day(dt), Hour(dt), 59, 59, LastNanosecond)
    ensures r.instant == FloorHour(dt).instant + NanosPerHour - 1
  {
    var r := Replace(dt, Year(dt), Month(dt), Day(dt), Hour(dt), 59, 59, LastNanosecond);
    ClockSpan(Fields(FloorHour(dt)), Fields(r));
    r
  }

  function CeilMinute(dt: DateTime): (r: DateTime)
    ensures r.zone == dt.zone
    ensures Fields(r) == Civil(Year(dt), Month(dt), Day(dt), Hour(dt), Minute(dt), 59, LastNanosecond)
    ensures r.instant == FloorMinute(dt).instant + NanosPerMinute - 1
  {
    var r := Replace(dt, Year(dt), Month(dt), Day(dt), Hour(dt), Minute(dt), 59, LastNanosecond);
    ClockSpan(Fields(FloorMinute(dt)), Fields(r));
    r
  }

  function CeilSecond(dt: DateTime): (r: DateTime)
    ensures r.zone == dt.zone
    ensures Fields(r) == Civil(Year(dt), Month(dt), Day(dt), Hour(dt), Minute(dt), Second(dt), LastNanosecond)
    ensures r.instant == FloorSecond(dt).instant + NanosPerSecond - 1
  {
    var r := Replace(dt, Year(dt), Month(dt), Day(dt), Hour(dt), Minute(dt), Second(dt), LastNanosecond);
    ClockSpan(Fields(FloorSecond(dt)), Fields(r));
    r
  }

  /** The first and last instant of the year of `dt`, in its zone. */
  function SpanYear(dt: DateTime): (r: (DateTime, DateTime))
    ensures r.0.zone == dt.zone && r.1.zone == dt.zone
    ensures Fields(r.0) == Civil(Year(dt), 1, 1, 0, 0, 0, 0)
    ensures Fields(r.1) == Civil(Year(dt), 12, 31, 23, 59, 59, LastNanosecond)
    ensures r.0.instant <= dt.instant <= r.1.instant
    ensures r.1.instant - r.0.instant == (if IsLeap(Year(dt)) then 366 else 365) * NanosPerDay - 1
  {
    var r := (FloorYear(dt), CeilYear(dt));
    YearSpan(Fields(r.0), Fields(r.1));
    r
  }

  /** As written, with `CeilMonth` as its end: the whole month when the day
      does not carry past the following month. */
  function SpanMonth(dt: DateTime): (r: (DateTime, DateTime))
    ensures r.0.zone == dt.zone && r.1.zone == dt.zone
    ensures Fields(r.0) == Civil(Year(dt), Month(dt), 1, 0, 0, 0, 0)
    ensures Fields(r.1) == Civil(Year(dt), Month(dt), CeilMonthDay(Fields(dt)), 23, 59, 59, LastNanosecond)
    ensures r.0.instant <= dt.instant
    ensures var next := NextMonth(Year(dt), Month(dt));
      Day(dt) <= DaysIn(next.0, next.1) ==>
        && Fields(r.1) == Civil(Year(dt), Month(dt), DaysIn(Year(dt), Month(dt)), 23, 59, 59, LastNanosecond)
        && dt.instant <= r.1.instant
        && r.1.instant - r.0.instant == DaysIn(Year(dt), Month(dt)) * NanosPerDay - 1
  {
    var r := (FloorMonth(dt), CeilMonth(dt));
    CeilMonthAgrees(dt);
    MonthSpan(Fields(r.0), Fields(CeilMonthLastDay(dt)));
    r
  }

  /** The first and last instant of the day of `dt`, in its zone. */
  function SpanDay(dt: DateTime): (r: (DateTime, DateTime))
    ensures r.0.zone == dt.zone && r.1.zone == dt.zone
    ensures Fields(r.0) == Civil(Year(dt), Month(dt), Day(dt), 0, 0, 0, 0)
    ensures Fields(r.1) == Civil(Year(dt), Month(dt), Day(dt), 23, 59, 59, LastNanosecond)
    ensures r.0.instant == dt.instant - dt.instant % NanosPerDay
    ensures r.1.instant == r.0.instant + NanosPerDay - 1
  {
    (FloorDay(dt), CeilDay(dt))
  }

  /** The first and last instant of the hour of `dt`, in its zone. */
  function SpanHour(dt: DateTime): (r: (DateTime, DateTime))
    ensures r.0.zone == dt.zone && r.1.zone == dt.zone
    ensures Fields(r.0) == Civil(Year(dt), Month(dt), Day(dt), Hour(dt), 0, 0, 0)
    ensures Fields(r.1) == Civil(Year(dt), Month(dt), Day(dt), Hour(dt), 59, 59, LastNanosecond)
    ensures r.0.instant == dt.instant - dt.instant % NanosPerHour
    ensures r.1.instant == r.0.instant + NanosPerHour - 1
  {
    (FloorHour(dt), CeilHour(dt))
  }

  /** The first and last instant of the minute of `dt`, in its zone. */
  function SpanMinute(dt: DateTime): (r: (DateTime, DateTime))
    ensures r.0.zone == dt.zone && r.1.zone == dt.zone
    ensures Fields(r.0) == Civil(Year(dt), Month(dt), Day(dt), Hour(dt), Minute(dt), 0, 0)
    ensures Fields(r.1) == Civil(Year(dt), Month(dt), Day(dt), Hour(dt), Minute(dt), 59, LastNanosecond)
    ensures r.0.instant == dt.instant - dt.instant % NanosPerMinute
    ensures r.1.instant == r.0.instant + NanosPerMinute - 1
  {
    (FloorMinute(dt), CeilMinute(dt))
  }

  /** The first and last instant of the second of `dt`, in its zone. */
  function SpanSecond(dt: DateTime): (r: (DateTime, DateTime))
    ensures r.0.zone == dt.zone && r.1.zone == dt.zone
    ensures Fields(r.0) == Civil(Year(dt), Month(dt), Day(dt), Hour(dt), Minute(dt), Second(dt), 0)
    ensures Fields(r.1) == Civil(Year(dt), Month(dt), Day(dt), Hour(dt), Minute(dt), Second(dt), LastNanosecond)
    ensures r.0.instant == dt.instant - dt.instant % NanosPerSecond
    ensures r.1.instant == r.0.instant + NanosPerSecond - 1
  {
    (FloorSecond(dt), CeilSecond(dt))
  }

  // ---------------------------------------------------------------------
  // Comparison

  /** Strictly after `start` and strictly before `end`. */
  predicate IsBetween(dt: DateTime, start: DateTime, end: DateTime) {
    start.instant < dt.instant && dt.instant < end.instant
  }

  // ---------------------------------------------------------------------
  // Lemmas used by the operations

  /** The instant of `dt` is its day count and its time of day. */
  lemma InstantOf(dt: DateTime)
    ensures dt.instant == DaysFromCivil(Year(dt), Month(dt), Day(dt)) * NanosPerDay
      + Hour(dt) * NanosPerHour + Minute(dt) * NanosPerMinute + Second(dt) * NanosPerSecond + Nanosecond(dt)
  {
    var c := Fields(dt);
    assert (c.month - 1) / 12 == 0 && (c.month - 1) % 12 + 1 == c.month;
  }

  /** Two values with the same fields and zone are the same value. */
  lemma FieldsDetermine(a: DateTime, b: DateTime)
    requires Fields(a) == Fields(b) && a.zone == b.zone
    ensures a == b
  {
  }

  /** Building from fields whose day runs at most 28 days past the end of
      the month gives the fields after one carry into the next month. */
  lemma NewDateTimeCarry(c: Civil, zone: TimezoneName)
    requires 1 <= c.month <= 12 && 1 <= c.day <= DaysIn(c.year, c.month) + 28 && ValidClock(c)
    ensures Fields(FromCivil(c, zone)) == CarryDay(c)
  {
    var c' := CarryDay(c);
    assert ValidCivil(c');
    if c.day > DaysIn(c.year, c.month) {
      NextMonthStart(c.year, c.month);
      assert DaysFromCivil(c.year, c.month, c.day) == DaysFromCivil(c'.year, c'.month, c'.day);
      TimeDateInRange(c.year, c.month, c.day, c.hour, c.minute, c.second, c.nanosecond);
      TimeDateInRange(c'.year, c'.month, c'.day, c'.hour, c'.minute, c'.second, c'.nanosecond);
    }
    assert TimeDate(c.year, c.month, c.day, c.hour, c.minute, c.second, c.nanosecond)
        == TimeDate(c'.year, c'.month, c'.day, c'.hour, c'.minute, c'.second, c'.nanosecond);
    CivilOfTimeDate(c');
  }

  /** Building from fields first carries the month into the year. */
  lemma FromCivilNormal(c: Civil, zone: TimezoneName)
    ensures FromCivil(c, zone)
      == FromCivil(c.(year := c.year + (c.month - 1) / 12, month := (c.month - 1) % 12 + 1), zone)
  {
    TimeDateNormal(c.year, c.month, c.day, c.hour, c.minute, c.second, c.nanosecond);
  }

  /** Rebuilding valid fields with another year and month carries the month
      into the year and then the day into the following month at most
      once. */
  lemma RebuildCarry(c: Civil, raw: Civil, norm: Civil, zone: TimezoneName)
    requires ValidCivil(c)
    requires raw == c.(year := raw.year, month := raw.month)
    requires norm == c.(year := raw.year + (raw.month - 1) / 12, month := (raw.month - 1) % 12 + 1)
    ensures Fields(FromCivil(raw, zone)) == CarryDay(norm)
  {
    FromCivilNormal(raw, zone);
    assert raw.(year := raw.year + (raw.month - 1) / 12, month := (raw.month - 1) % 12 + 1) == norm;
    NewDateTimeCarry(norm, zone);
  }

  /** Rebuilding with the same year and month moves the instant by the
      change in day and time of day, whatever the new values. */
  lemma RebuildInstant(c: Civil, c2: Civil, zone: TimezoneName)
    requires ValidCivil(c) && c2.year == c.year && c2.month == c.month
    ensures FromCivil(c2, zone).instant
         == TimeDate(c.year, c.month, c.day, c.hour, c.minute, c.second, c.nanosecond)
            + (c2.day - c.day) * NanosPerDay + (c2.hour - c.hour) * NanosPerHour
            + (c2.minute - c.minute) * NanosPerMinute + (c2.second - c.second) * NanosPerSecond
            + (c2.nanosecond - c.nanosecond)
  {
    TimeDateInRange(c.year, c.month, c.day, c.hour, c.minute, c.second, c.nanosecond);
    TimeDateInRange(c2.year, c2.month, c2.day, c2.hour, c2.minute, c2.second, c2.nanosecond);
  }

  /** `AddDate` with years and months only, in terms of the fields. */
  lemma AddDateCarry(dt: DateTime, years: int, months: int)
    ensures Fields(AddDate(dt, years, months, 0))
         == CarryDay(Fields(dt).(year := Fields(dt).year + years + (Fields(dt).month + months - 1) / 12,
                                 month := (Fields(dt).month + months - 1) % 12 + 1))
  {
    var c := Fields(dt);
    var raw := c.(year := c.year + years, month := c.month + months);
    assert AddDate(dt, years, months, 0) == FromCivil(raw, dt.zone);
    RebuildCarry(c, raw, c.(year := c.year + years + (c.month + months - 1) / 12, month := (c.month + months - 1) % 12 + 1), dt.zone);
  }

  /** `AddDate` with years only: the month stays and only the day can
      carry. */
  lemma AddYearsCarry(dt: DateTime, years: int)
    ensures Fields(AddDate(dt, years, 0, 0)) == CarryDay(Fields(dt).(year := Fields(dt).year + years))
  {
    var c := Fields(dt);
    var raw := c.(year := c.year + years);
    assert AddDate(dt, years, 0, 0) == FromCivil(raw, dt.zone);
    assert (c.month - 1) / 12 == 0 && (c.month - 1) % 12 + 1 == c.month;
    RebuildCarry(c, raw, raw, dt.zone);
  }

  /** The day, hour, minute, second and nanosecond steps of `Replace` give
      `time.Date` on the year and month they start from. */
  lemma ReplaceTail(x: DateTime, day: int, hour: int, minute: int, second: int, nanosecond: int)
    ensures ReplaceNanosecond(ReplaceSecond(ReplaceMinute(ReplaceHour(ReplaceDay(x, day), hour), minute), second), nanosecond)
         == NewDateTime(Year(x), Month(x), day, hour, minute, second, nanosecond, x.zone)
  {
    var c := Fields(x);
    RebuildInstant(c, Civil(c.year, c.month, day, hour, minute, second, nanosecond), x.zone);
  }

  /** When neither the year nor the month step carries, they reach the
      requested year and month with the original finer fields. */
  lemma ReplaceNoCarry(dt: DateTime, year: int, month: int)
    ensures 1 <= month <= 12 && Day(dt) <= DaysIn(year, Month(dt)) && Day(dt) <= DaysIn(year, month)
      ==> Fields(ReplaceMonth(ReplaceYear(dt, year), month)) == Fields(dt).(year := year, month := month)
  {
    if 1 <= month <= 12 {
      assert (month - 1) / 12 == 0 && (month - 1) % 12 + 1 == month;
    }
  }

  /** Cutting the clock of `c` down to a whole number `k` of units, where
      a day is a whole number `q` of units, rounds its instant down to a
      whole unit. */
  lemma ClockFloor(c: Civil, f: Civil, unit: int, k: int, q: int)
    requires 1 <= c.month <= 12 && f.year == c.year && f.month == c.month && f.day == c.day
    requires 0 < unit && NanosPerDay == q * unit
    requires ClockNanos(f) == k * unit && 0 <= ClockNanos(c) - k * unit < unit
    ensures TimeDate(f.year, f.month, f.day, f.hour, f.minute, f.second, f.nanosecond)
         == TimeDate(c.year, c.month, c.day, c.hour, c.minute, c.second, c.nanosecond)
            - TimeDate(c.year, c.month, c.day, c.hour, c.minute, c.second, c.nanosecond) % unit
  {
    TimeDateInRange(c.year, c.month, c.day, c.hour, c.minute, c.second, c.nanosecond);
    TimeDateInRange(f.year, f.month, f.day, f.hour, f.minute, f.second, f.nanosecond);
    FloorOfSum(DaysFromCivil(c.year, c.month, c.day), NanosPerDay, ClockNanos(c), ClockNanos(f), unit, k, q);
  }

  /** `days` whole days plus a clock, rounded down to a unit that divides
      the day, keep the days and round the clock. */
  lemma FloorOfSum(days: int, day: int, clock: int, floored: int, unit: int, k: int, q: int)
    requires 0 < unit && day == q * unit && floored == k * unit && 0 <= clock - floored < unit
    ensures days * day + floored == (days * day + clock) - (days * day + clock) % unit
  {
    assert days * day == (days * q) * unit;
    assert days * day + clock == (days * q + k) * unit + (clock - floored);
    DivMod(days * day + clock, unit, days * q + k, clock - floored);
  }

  /** Two instants of the same day differ by the difference of their
      clocks. */
  lemma ClockSpan(a: Civil, b: Civil)
    requires ValidCivil(a) && ValidCivil(b) && a.year == b.year && a.month == b.month && a.day == b.day
    ensures TimeDate(b.year, b.month, b.day, b.hour, b.minute, b.second, b.nanosecond)
         == TimeDate(a.year, a.month, a.day, a.hour, a.minute, a.second, a.nanosecond) + ClockNanos(b) - ClockNanos(a)
  {
    TimeDateInRange(a.year, a.month, a.day, a.hour, a.minute, a.second, a.nanosecond);
    TimeDateInRange(b.year, b.month, b.day, b.hour, b.minute, b.second, b.nanosecond);
  }

  /** From the first instant of a year to its last. */
  lemma YearSpan(a: Civil, b: Civil)
    requires a == Civil(a.year, 1, 1, 0, 0, 0, 0) && b == Civil(a.year, 12, 31, 23, 59, 59, LastNanosecond)
    ensures TimeDate(b.year, b.month, b.day, b.hour, b.minute, b.second, b.nanosecond)
         - TimeDate(a.year, a.month, a.day, a.hour, a.minute, a.second, a.nanosecond)
         == (if IsLeap(a.year) then 366 else 365) * NanosPerDay - 1
  {
    TimeDateInRange(a.year, 1, 1, 0, 0, 0, 0);
    TimeDateInRange(a.year, 12, 31, 23, 59, 59, LastNanosecond);
    YearLength(a.year);
    NextMonthStart(a.year, 12);
  }

  /** From the first instant of a month to its last. */
  lemma MonthSpan(a: Civil, b: Civil)
    requires 1 <= a.month <= 12
    requires a == Civil(a.year, a.month, 1, 0, 0, 0, 0)
    requires b == Civil(a.year, a.month, DaysIn(a.year, a.month), 23, 59, 59, LastNanosecond)
    ensures TimeDate(b.year, b.month, b.day, b.hour, b.minute, b.second, b.nanosecond)
         - TimeDate(a.year, a.month, a.day, a.hour, a.minute, a.second, a.nanosecond)
         == DaysIn(a.year, a.month) * NanosPerDay - 1
  {
    TimeDateInRange(a.year, a.month, 1, 0, 0, 0, 0);
    TimeDateInRange(a.year, a.month, DaysIn(a.year, a.month), 23, 59, 59, LastNanosecond);
  }

  /** Shifting valid fields by one month lands on the following month. */
  lemma OneMonthOn(c: Civil)
    requires 1 <= c.month <= 12
    ensures c.year + (c.month + 1 - 1) / 12 == NextMonth(c.year, c.month).0
    ensures (c.month + 1 - 1) % 12 + 1 == NextMonth(c.year, c.month).1
  {
  }

  /** A day past the end of its month carries into the following month. */
  lemma CarryDayMonth(c: Civil)
    requires 1 <= c.month <= 12 && c.day > DaysIn(c.year, c.month)
    ensures CarryDay(c).year == NextMonth(c.year, c.month).0
    ensures CarryDay(c).month == NextMonth(c.year, c.month).1
  {
  }

  /** The instant just a day before the first of the month after (y, m)
      falls on the last day of (y, m). */
  lemma StepBackFromFirst(t: int, p: Civil, y: int, m: int)
    requires ReadsAs(t, p) && p.day == 1 && 1 <= m <= 12
    requires p.year == NextMonth(y, m).0 && p.month == NextMonth(y, m).1
    ensures CivilOf(t - NanosPerDay).day == DaysIn(y, m)
  {
    LastDayBefore(y, m, p);
  }

  /** The first of the month `CeilMonth` reaches by shifting one month on. */
  lemma CeilMonthFirst(dt: DateTime)
    ensures Fields(ReplaceDay(ShiftMonths(dt, 1), 1))
         == CarryDay(Fields(dt).(year := NextMonth(Fields(dt).year, Fields(dt).month).0,
                                 month := NextMonth(Fields(dt).year, Fields(dt).month).1)).(day := 1)
  {
    OneMonthOn(Fields(dt));
  }

  /** The day of the day before. */
  lemma DayBefore(x: DateTime)
    ensures Day(ShiftDays(x, -1)) == CivilOf(x.instant - NanosPerDay).day
  {
  }

  /** The day `CeilMonth` reads off its temporary value. */
  lemma CeilMonthTemp(dt: DateTime)
    ensures Day(ShiftDays(ReplaceDay(ShiftMonths(Copy(dt), 1), 1), -1)) == CeilMonthDay(Fields(dt))
  {
    var s2 := ReplaceDay(ShiftMonths(dt, 1), 1);
    CeilMonthStepBack(dt);
    DayBefore(s2);
    assert Copy(dt) == dt;
  }

  /** A day back from the first of the month `CeilMonth` reaches. */
  lemma CeilMonthStepBack(dt: DateTime)
    ensures CivilOf(ReplaceDay(ShiftMonths(dt, 1), 1).instant - NanosPerDay).day == CeilMonthDay(Fields(dt))
  {
    var s2 := ReplaceDay(ShiftMonths(dt, 1), 1);
    CeilMonthFirst(dt);
    StepBackAfterShift(dt.instant, Fields(dt), s2.instant, Fields(s2));
  }

  /** Stepping back a day from the first of the month reached by shifting
      `c` one month on lands on the day `CeilMonthDay` names. */
  lemma StepBackAfterShift(t: int, c: Civil, t2: int, c2: Civil)
    requires ReadsAs(t, c) && ReadsAs(t2, c2)
    requires c2 == CarryDay(c.(year := NextMonth(c.year, c.month).0, month := NextMonth(c.year, c.month).1)).(day := 1)
    ensures CivilOf(t2 - NanosPerDay).day == CeilMonthDay(c)
  {
    var next := NextMonth(c.year, c.month);
    if c.day <= DaysIn(next.0, next.1) {
      StepBackFromFirst(t2, c2, c.year, c.month);
    } else {
      CarryDayMonth(c.(year := next.0, month := next.1));
      StepBackFromFirst(t2, c2, next.0, next.1);
    }
  }

  /** `CeilMonth` gives the last instant of the month exactly when the day
      does not carry past the following month, in particular on every day up
      to the 28th. */
  lemma CeilMonthAgrees(dt: DateTime)
    ensures var next := NextMonth(Year(dt), Month(dt));
      CeilMonth(dt) == CeilMonthLastDay(dt) <==> Day(dt) <= DaysIn(next.0, next.1)
    ensures Day(dt) <= 28 ==> CeilMonth(dt) == CeilMonthLastDay(dt)
  {
    var c := Fields(dt);
    var next := NextMonth(c.year, c.month);
    if c.day <= DaysIn(next.0, next.1) {
      FieldsDetermine(CeilMonth(dt), CeilMonthLastDay(dt));
    }
  }

  // ---------------------------------------------------------------------
  // Laws

  /** Flooring twice is flooring once. */
  lemma FloorsIdempotent(dt: DateTime)
    ensures FloorYear(FloorYear(dt)) == FloorYear(dt)
    ensures FloorMonth(FloorMonth(dt)) == FloorMonth(dt)
    ensures FloorDay(FloorDay(dt)) == FloorDay(dt)
    ensures FloorHour(FloorHour(dt)) == FloorHour(dt)
    ensures FloorMinute(FloorMinute(dt)) == FloorMinute(dt)
    ensures FloorSecond(FloorSecond(dt)) == FloorSecond(dt)
  {
    FieldsDetermine(FloorYear(FloorYear(dt)), FloorYear(dt));
    FieldsDetermine(FloorMonth(FloorMonth(dt)), FloorMonth(dt));
    FieldsDetermine(FloorDay(FloorDay(dt)), FloorDay(dt));
    FieldsDetermine(FloorHour(FloorHour(dt)), FloorHour(dt));
    FieldsDetermine(FloorMinute(FloorMinute(dt)), FloorMinute(dt));
    FieldsDetermine(FloorSecond(FloorSecond(dt)), FloorSecond(dt));
  }

  /** Ceiling twice is ceiling once; for the month this holds of the last
      day of the month, not of `CeilMonth` as written (see
      `CeilMonthNotIdempotent`). */
  lemma CeilsIdempotent(dt: DateTime)
    ensures CeilYear(CeilYear(dt)) == CeilYear(dt)
    ensures CeilMonthLastDay(CeilMonthLastDay(dt)) == CeilMonthLastDay(dt)
    ensures CeilDay(CeilDay(dt)) == CeilDay(dt)
    ensures CeilHour(CeilHour(dt)) == CeilHour(dt)
    ensures CeilMinute(CeilMinute(dt)) == CeilMinute(dt)
    ensures CeilSecond(CeilSecond(dt)) == CeilSecond(dt)
  {
    FieldsDetermine(CeilYear(CeilYear(dt)), CeilYear(dt));
    FieldsDetermine(CeilMonthLastDay(CeilMonthLastDay(dt)), CeilMonthLastDay(dt));
    FieldsDetermine(CeilDay(CeilDay(dt)), CeilDay(dt));
    FieldsDetermine(CeilHour(CeilHour(dt)), CeilHour(dt));
    FieldsDetermine(CeilMinute(CeilMinute(dt)), CeilMinute(dt));
    FieldsDetermine(CeilSecond(CeilSecond(dt)), CeilSecond(dt));
  }

  /** Shifting by whole days moves the day of the week by as many days. */
  lemma WeekDayShiftDays(dt: DateTime, days: int)
    ensures WeekDay(ShiftDays(dt, days)) == (WeekDay(dt) + days) % 7
  {
    var q := dt.instant / NanosPerDay;
    DivMod(dt.instant + days * NanosPerDay, NanosPerDay, q + days, dt.instant % NanosPerDay);
    ModShift(q + 4 + days, -((q + 4) / 7), 7);
  }

  /** The day of the week is that of the calendar date, at every time of
      day: day count 0 is 1970-01-01, a Thursday. */
  lemma WeekDayOfDate(dt: DateTime)
    ensures WeekDay(dt) == (DaysFromCivil(Year(dt), Month(dt), Day(dt)) + 4) % 7
  {
    InstantOf(dt);
    DivMod(dt.instant, NanosPerDay, DaysFromCivil(Year(dt), Month(dt), Day(dt)),
      Hour(dt) * NanosPerHour + Minute(dt) * NanosPerMinute + Second(dt) * NanosPerSecond + Nanosecond(dt));
  }

  /** A sub-day shift whose duration and its negation both fit a
      `time.Duration` is undone by the opposite shift. */
  lemma ShiftsInverse(dt: DateTime, n: int)
    ensures MinDuration <= n * NanosPerHour && -n * NanosPerHour <= MaxDuration && n * NanosPerHour <= MaxDuration && MinDuration <= -n * NanosPerHour
      ==> ShiftHours(ShiftHours(dt, n), -n) == dt
    ensures MinDuration <= n * NanosPerMinute && -n * NanosPerMinute <= MaxDuration && n * NanosPerMinute <= MaxDuration && MinDuration <= -n * NanosPerMinute
      ==> ShiftMinutes(ShiftMinutes(dt, n), -n) == dt
    ensures MinDuration <= n * NanosPerSecond && -n * NanosPerSecond <= MaxDuration && n * NanosPerSecond <= MaxDuration && MinDuration <= -n * NanosPerSecond
      ==> ShiftSeconds(ShiftSeconds(dt, n), -n) == dt
    ensures MinDuration <= n * 1_000_000 && -n * 1_000_000 <= MaxDuration && n * 1_000_000 <= MaxDuration && MinDuration <= -n * 1_000_000
      ==> ShiftMilliSeconds(ShiftMilliSeconds(dt, n), -n) == dt
    ensures MinDuration <= n * 1_000 && -n * 1_000 <= MaxDuration && n * 1_000 <= MaxDuration && MinDuration <= -n * 1_000
      ==> ShiftMicroSeconds(ShiftMicroSeconds(dt, n), -n) == dt
    ensures MinDuration <= n <= MaxDuration && MinDuration <= -n <= MaxDuration
      ==> ShiftNanoseconds(ShiftNanoseconds(dt, n), -n) == dt
  {
  }

  /** Shifting by whole days is undone by the opposite shift. */
  lemma ShiftDaysInverse(dt: DateTime, days: int)
    ensures ShiftDays(ShiftDays(dt, days), -days) == dt
  {
  }

  /** `IsBetween` excludes both ends, so it never holds of an end point and
      implies the bounds are in order. */
  lemma IsBetweenStrict(dt: DateTime, x: DateTime)
    ensures !IsBetween(dt, dt, x) && !IsBetween(dt, x, dt)
    ensures IsBetween(dt, x, x) == false
  {
  }

  lemma IsBetweenOrdered(dt: DateTime, start: DateTime, end: DateTime)
    ensures IsBetween(dt, start, end) ==> start.instant < end.instant
  {
  }

  /** Every floor is at or before the value, and every ceiling at or after
      it; for the month this holds of the last day of the month, not of
      `CeilMonth` as written (see `CeilMonthOverflows`). */
  lemma FloorCeilBracket(dt: DateTime)
    ensures FloorYear(dt).instant <= dt.instant <= CeilYear(dt).instant
    ensures FloorMonth(dt).instant <= dt.instant <= CeilMonthLastDay(dt).instant
    ensures FloorDay(dt).instant <= dt.instant <= CeilDay(dt).instant
    ensures FloorHour(dt).instant <= dt.instant <= CeilHour(dt).instant
    ensures FloorMinute(dt).instant <= dt.instant <= CeilMinute(dt).instant
    ensures FloorSecond(dt).instant <= dt.instant <= CeilSecond(dt).instant
  {
  }

  /** `Replace` from the first of a month sets every field as given. */
  lemma ReplaceFromFirst(dt: DateTime, year: int, month: int, day: int, hour: int,
                         minute: int, second: int, nanosecond: int)
    requires Day(dt) == 1 && 1 <= month <= 12
    requires ValidCivil(Civil(year, month, day, hour, minute, second, nanosecond))
    ensures Fields(Replace(dt, year, month, day, hour, minute, second, nanosecond))
         == Civil(year, month, day, hour, minute, second, nanosecond)
  {
  }

  // ---------------------------------------------------------------------
  // Replacing every field at once

  /** Sets every field in one step, as `time.Date` does: valid fields are
      read back unchanged, whatever the day of `dt`. */
  function ReplaceFields(dt: DateTime, year: int, month: int, day: int, hour: int,
                         minute: int, second: int, nanosecond: int): (r: DateTime)
    ensures r.zone == dt.zone
    ensures ValidCivil(Civil(year, month, day, hour, minute, second, nanosecond))
      ==> Fields(r) == Civil(year, month, day, hour, minute, second, nanosecond)
  {
    NewDateTime(year, month, day, hour, minute, second, nanosecond, dt.zone)
  }

  /** `Replace` agrees with setting every field at once when neither its
      year step nor its month step carries. */
  lemma ReplaceAgrees(dt: DateTime, year: int, month: int, day: int, hour: int,
                      minute: int, second: int, nanosecond: int)
    requires 1 <= month <= 12 && Day(dt) <= DaysIn(year, Month(dt)) && Day(dt) <= DaysIn(year, month)
    ensures Replace(dt, year, month, day, hour, minute, second, nanosecond)
         == ReplaceFields(dt, year, month, day, hour, minute, second, nanosecond)
  {
  }

  /** On January 31 2020, replacing the month with February and the day
      with 1 gives March 1: the month step carries the 31st past the end of
      February before the day is set. */
  lemma ReplaceCarriesPastMonth()
    ensures var dt := NewUTCDateTime(2020, 1, 31, 0, 0, 0, 0);
      && Month(Replace(dt, 2020, 2, 1, 0, 0, 0, 0)) == 3
      && Month(ReplaceFields(dt, 2020, 2, 1, 0, 0, 0, 0)) == 2
  {
    var dt := NewUTCDateTime(2020, 1, 31, 0, 0, 0, 0);
    assert Fields(dt) == Civil(2020, 1, 31, 0, 0, 0, 0);
    var y := ReplaceYear(dt, 2020);
    assert Fields(y) == Civil(2020, 1, 31, 0, 0, 0, 0);
    var ym := ReplaceMonth(y, 2);
    assert Fields(ym) == Civil(2020, 3, 2, 0, 0, 0, 0);
  }

  /** On January 31 2020, `CeilMonth` lands on January 29, before the value
      itself: the one-month shift carries into March, and a day back from
      March 1 is February 29. */
  lemma CeilMonthOverflows()
    ensures var dt := NewUTCDateTime(2020, 1, 31, 0, 0, 0, 0);
      && Fields(CeilMonth(dt)) == Civil(2020, 1, 29, 23, 59, 59, LastNanosecond)
      && CeilMonth(dt).instant < dt.instant
  {
    var dt := NewUTCDateTime(2020, 1, 31, 0, 0, 0, 0);
    assert Fields(dt) == Civil(2020, 1, 31, 0, 0, 0, 0);
    assert NextMonth(2020, 1) == (2020, 2);
    var r := CeilMonth(dt);
    InstantOrder(Fields(r), Fields(dt));
    assert r.instant != dt.instant;
  }

  /** From January 15 2020, `CeilMonth` gives January 31 23:59:59.999999999,
      and `CeilMonth` of that gives January 29: as written, ceiling twice is
      not ceiling once, even from a day the following month has. */
  lemma CeilMonthNotIdempotent()
    ensures var dt := NewUTCDateTime(2020, 1, 15, 0, 0, 0, 0);
      && Fields(CeilMonth(dt)) == Civil(2020, 1, 31, 23, 59, 59, LastNanosecond)
      && Fields(CeilMonth(CeilMonth(dt))) == Civil(2020, 1, 29, 23, 59, 59, LastNanosecond)
  {
    var dt := NewUTCDateTime(2020, 1, 15, 0, 0, 0, 0);
    assert Fields(dt) == Civil(2020, 1, 15, 0, 0, 0, 0);
    assert NextMonth(2020, 1) == (2020, 2);
    var once := CeilMonth(dt);
    assert Fields(once) == Civil(2020, 1, 31, 23, 59, 59, LastNanosecond);
  }
}
