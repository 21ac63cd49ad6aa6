/** The host calendar that datetime.go delegates to: the proleptic Gregorian
    calendar, counted in days since 1970-01-01, and the normalising constructor
    `time.Date` for a zone at offset zero.

    Internally the calendar works with March-based years (a year starts on
    1 March, so the leap day is the last day of the year) grouped in eras of
    400 years (146097 days). */
module Calendar {

  const NanosPerSecond: int := 1_000_000_000
  const NanosPerMinute: int := 60_000_000_000
  const NanosPerHour: int := 3_600_000_000_000
  const NanosPerDay: int := 86_400_000_000_000

  /** Days from 0000-03-01 to 1970-01-01. */
  const EpochOffset: int := 719468

  /** The civil fields of an instant, as `time.Time` reports them. */
  datatype Civil = Civil(year: int, month: int, day: int,
                         hour: int, minute: int, second: int, nanosecond: int)

  predicate IsLeap(y: int) {
    y % 4 == 0 && (y % 100 != 0 || y % 400 == 0)
  }

  /** Length of month `m` (1 = January) of year `y`. */
  function DaysIn(y: int, m: int): (n: int)
    requires 1 <= m <= 12
    ensures 28 <= n <= 31
    ensures m == 2 ==> (n == 29 <==> IsLeap(y))
  {
    if m == 2 then (if IsLeap(y) then 29 else 28)
    else if m == 4 || m == 6 || m == 9 || m == 11 then 30
    else 31
  }

  /** The clock fields of `c` are in range. */
  predicate ValidClock(c: Civil) {
    0 <= c.hour < 24 && 0 <= c.minute < 60 && 0 <= c.second < 60 && 0 <= c.nanosecond < NanosPerSecond
  }

  /** Nanoseconds since midnight shown by the clock fields of `c`. */
  function ClockNanos(c: Civil): int {
    c.hour * NanosPerHour + c.minute * NanosPerMinute + c.second * NanosPerSecond + c.nanosecond
  }

  /** `a` falls no later than `b` in the same calendar year, comparing
      month, then day, then time of day. */
  predicate SameYearNotLater(a: Civil, b: Civil) {
    && a.year == b.year
    && (|| a.month < b.month
        || (a.month == b.month && (a.day < b.day || (a.day == b.day && ClockNanos(a) <= ClockNanos(b)))))
  }

  predicate ValidCivil(c: Civil) {
    && 1 <= c.month <= 12
    && 1 <= c.day <= DaysIn(c.year, c.month)
    && 0 <= c.hour < 24
    && 0 <= c.minute < 60
    && 0 <= c.second < 60
    && 0 <= c.nanosecond < NanosPerSecond
  }

  // ---------------------------------------------------------------------
  // March-based years

  /** Days from 1 March to the first day of March-based month `mp`
      (0 = March, ..., 10 = January, 11 = February). */
  function MonthStart(mp: int): int
    requires 0 <= mp <= 11
  {
    if mp == 0 then 0 else if mp == 1 then 31 else if mp == 2 then 61
    else if mp == 3 then 92 else if mp == 4 then 122 else if mp == 5 then 153
    else if mp == 6 then 184 else if mp == 7 then 214 else if mp == 8 then 245
    else if mp == 9 then 275 else if mp == 10 then 306 else 337
  }

  /** The March-based month index of calendar month `m`. */
  function MarchMonth(m: int): int
    requires 1 <= m <= 12
  {
    if m <= 2 then m + 9 else m - 3
  }

  /** The calendar month of March-based month index `mp`. */
  function CalendarMonth(mp: int): int
    requires 0 <= mp <= 11
  {
    if mp < 10 then mp + 3 else mp - 9
  }

  /** The March-based year that month `m` of calendar year `y` belongs to. */
  function MarchYear(y: int, m: int): int
    requires 1 <= m <= 12
  {
    if m <= 2 then y - 1 else y
  }

  /** Does the March-based year `yoe` of an era end with a leap day? */
  predicate EraLeap(yoe: int) {
    (yoe + 1) % 4 == 0 && ((yoe + 1) % 100 != 0 || yoe == 399)
  }

  /** Days from the start of an era to 1 March of its year `yoe`. */
  function YearStart(yoe: int): int
    requires 0 <= yoe < 400
  {
    365 * yoe + yoe / 4 - yoe / 100
  }

  /** Days from 0000-03-01 to 1 March of year `yp`. */
  function MarchFirst(yp: int): int {
    146097 * (yp / 400) + YearStart(yp % 400)
  }

  /** Days since 1970-01-01 of the first day of month `m` of year `y`. */
  function FirstOfMonth(y: int, m: int): int
    requires 1 <= m <= 12
  {
    MarchFirst(MarchYear(y, m)) + MonthStart(MarchMonth(m)) - EpochOffset
  }

  /** Days since 1970-01-01 of day `d` of month `m` of year `y`; a day
      outside the month counts on from the first of the month. */
  function DaysFromCivil(y: int, m: int, d: int): int
    requires 1 <= m <= 12
  {
    FirstOfMonth(y, m) + d - 1
  }

  /** The (year, month) after month `m` of year `y`: it starts the day
      after the last day of month `m`. */
  function NextMonth(y: int, m: int): (r: (int, int))
    requires 1 <= m <= 12
    ensures 1 <= r.1 <= 12
    ensures FirstOfMonth(r.0, r.1) == FirstOfMonth(y, m) + DaysIn(y, m)
  {
    NextMonthStart(y, m);
    if m == 12 then (y + 1, 1) else (y, m + 1)
  }

  /** Splits a day of an era into its March-based year and day of year:
      centuries of 36524 days (the last one 36525), four-year cycles of 1461
      days (the last one of a century 1460 unless the century ends the era),
      years of 365 days (the last one of a cycle 366 when it is a leap year). */
  function SplitEra(doe: int): (r: (int, int))
    requires 0 <= doe < 146097
    ensures 0 <= r.0 < 400 && 0 <= r.1
    ensures r.1 < 365 || (r.1 == 365 && EraLeap(r.0))
    ensures YearStart(r.0) + r.1 == doe
  {
    var c := if doe / 36524 < 3 then doe / 36524 else 3;
    var doc := doe - 36524 * c;
    var q := doc / 1461;
    var dq := doc - 1461 * q;
    var r := if dq / 365 < 3 then dq / 365 else 3;
    var yoe := 100 * c + 4 * q + r;
    assert 0 <= q <= 24 && 0 <= r <= 3 && 0 <= dq < 1461;
    assert yoe / 4 == 25 * c + q;
    assert yoe / 100 == c;
    (yoe, dq - 365 * r)
  }

  /** The March-based month that day `doy` of a March-based year falls in. */
  function MonthOfDay(doy: int): (mp: int)
    requires 0 <= doy < 366
    ensures 0 <= mp <= 11 && MonthStart(mp) <= doy
    ensures mp < 11 ==> doy < MonthStart(mp + 1)
  {
    if doy < 31 then 0 else if doy < 61 then 1 else if doy < 92 then 2
    else if doy < 122 then 3 else if doy < 153 then 4 else if doy < 184 then 5
    else if doy < 214 then 6 else if doy < 245 then 7 else if doy < 275 then 8
    else if doy < 306 then 9 else if doy < 337 then 10 else 11
  }

  /** The calendar date (year, month, day) of day `z` since 1970-01-01. */
  function CivilFromDays(z: int): (r: (int, int, int))
    ensures 1 <= r.1 <= 12
  {
    var zz := z + EpochOffset;
    var era := zz / 146097;
    var split := SplitEra(zz % 146097);
    var mp := MonthOfDay(split.1);
    var m := CalendarMonth(mp);
    (400 * era + split.0 + (if m <= 2 then 1 else 0), m, split.1 - MonthStart(mp) + 1)
  }

  // ---------------------------------------------------------------------
  // Instants

  /** `time.Date(year, month, day, hour, minute, second, nanosecond, loc)` at
      offset zero: the month carries into the year, the day counts on from the
      first of the (normalised) month, and every finer field carries upward;
      the result is nanoseconds since 1970-01-01T00:00:00. */
  function TimeDate(year: int, month: int, day: int, hour: int, minute: int,
                    second: int, nanosecond: int): int
  {
    var y := year + (month - 1) / 12;
    var m := (month - 1) % 12 + 1;
    DaysFromCivil(y, m, day) * NanosPerDay + hour * NanosPerHour
      + minute * NanosPerMinute + second * NanosPerSecond + nanosecond
  }

  /** With the month in range only the day carries. */
  lemma TimeDateInRange(y: int, m: int, d: int, h: int, mi: int, s: int, ns: int)
    requires 1 <= m <= 12
    ensures TimeDate(y, m, d, h, mi, s, ns)
      == DaysFromCivil(y, m, d) * NanosPerDay + h * NanosPerHour + mi * NanosPerMinute + s * NanosPerSecond + ns
  {
    DivMod(m - 1, 12, 0, m - 1);
  }

  /** `time.Date` first carries the month into the year. */
  lemma TimeDateNormal(y: int, m: int, d: int, h: int, mi: int, s: int, ns: int)
    ensures TimeDate(y, m, d, h, mi, s, ns)
      == TimeDate(y + (m - 1) / 12, (m - 1) % 12 + 1, d, h, mi, s, ns)
  {
    TimeDateInRange(y + (m - 1) / 12, (m - 1) % 12 + 1, d, h, mi, s, ns);
  }

  /** `c` is a valid reading of instant `t`: fields in range that
      `time.Date` maps back to `t`. */
  predicate ReadsAs(t: int, c: Civil) {
    ValidCivil(c) && TimeDate(c.year, c.month, c.day, c.hour, c.minute, c.second, c.nanosecond) == t
  }

  /** The civil fields of instant `t` at offset zero: the one valid reading
      of `t` (`SplitInstant` computes it, `ReadingUnique` shows there is no
      other). */
  function CivilOf(t: int): (c: Civil)
    ensures ReadsAs(t, c)
  {
    var split := SplitInstant(t);
    ReadingUnique(t);
    var c :| ReadsAs(t, c);
    c
  }

  /** Splits instant `t` into days and time of day, and the days into a
      date. */
  function SplitInstant(t: int): (c: Civil)
    ensures ReadsAs(t, c)
  {
    var date := CivilFromDays(t / NanosPerDay);
    var tod := t % NanosPerDay;
    var inHour := tod % NanosPerHour;
    var inMinute := inHour % NanosPerMinute;
    CivilFromDaysSound(t / NanosPerDay);
    TimeDateInRange(date.0, date.1, date.2, tod / NanosPerHour, inHour / NanosPerMinute,
                    inMinute / NanosPerSecond, inMinute % NanosPerSecond);
    SplitClock(tod);
    Civil(date.0, date.1, date.2, tod / NanosPerHour, inHour / NanosPerMinute,
          inMinute / NanosPerSecond, inMinute % NanosPerSecond)
  }

  // ---------------------------------------------------------------------
  // Lemmas

  /** A time of day splits into hours, minutes, seconds and nanoseconds in
      range. */
  lemma SplitClock(x: int)
    requires 0 <= x < NanosPerDay
    ensures var h, mi := x % NanosPerHour, x % NanosPerHour % NanosPerMinute;
      && x == x / NanosPerHour * NanosPerHour + h / NanosPerMinute * NanosPerMinute
              + mi / NanosPerSecond * NanosPerSecond + mi % NanosPerSecond
      && 0 <= x / NanosPerHour < 24 && 0 <= h / NanosPerMinute < 60 && 0 <= mi / NanosPerSecond < 60
  {
    var h, mi := x % NanosPerHour, x % NanosPerHour % NanosPerMinute;
    assert x == x / NanosPerHour * NanosPerHour + h;
    assert h == h / NanosPerMinute * NanosPerMinute + mi;
    assert mi == mi / NanosPerSecond * NanosPerSecond + mi % NanosPerSecond;
  }

  /** Inside an era, the leap years of the calendar are the March-based years
      that `EraLeap` picks out. */
  lemma EraLeapIsLeap(era: int, yoe: int)
    requires 0 <= yoe < 400
    ensures IsLeap(400 * era + yoe + 1) <==> EraLeap(yoe)
  {
    var k := yoe + 1;
    var y := 400 * era + k;
    DivMod(y, 4, 100 * era + k / 4, k % 4);
    DivMod(y, 100, 4 * era + k / 100, k % 100);
    DivMod(y, 400, era + k / 400, k % 400);
  }

  /** Quotient and remainder are determined by `x == q * d + r` with
      `0 <= r < d`. */
  lemma DivMod(x: int, d: int, q: int, r: int)
    requires 0 < d && 0 <= r < d && x == q * d + r
    ensures x / d == q && x % d == r
  {
    var q', r' := x / d, x % d;
    assert x == q' * d + r';
    if q' < q {
      assert (q - q') * d == r' - r;
      MulAtLeast(q - q', d);
    } else if q' > q {
      assert (q' - q) * d == r - r';
      MulAtLeast(q' - q, d);
    }
  }

  /** Taking the remainder by a multiple of `small` first does not change
      the remainder by `small`. */
  lemma ModOfMod(t: int, big: int, small: int, m: int)
    requires 0 < small && 0 < m && big == m * small
    ensures t % big % small == t % small
  {
    var q1, r1 := t / big, t % big;
    var q2, r2 := r1 / small, r1 % small;
    assert t == (m * q1 + q2) * small + r2 by {
      assert t == big * q1 + r1;
      assert r1 == small * q2 + r2;
      assert big * q1 == (m * q1) * small;
    }
    DivMod(t, small, m * q1 + q2, r2);
  }

  /** Adding whole units does not change the remainder by the unit. */
  lemma ModShift(t: int, k: int, unit: int)
    requires 0 < unit
    ensures (t + k * unit) % unit == t % unit
  {
    assert t + k * unit == (t / unit + k) * unit + t % unit;
    DivMod(t + k * unit, unit, t / unit + k, t % unit);
  }

  /** Each clock field depends only on the remainder of the instant by the
      next larger unit. */
  lemma ClockFields(t: int)
    ensures CivilOf(t).hour == t % NanosPerDay / NanosPerHour
    ensures CivilOf(t).minute == t % NanosPerHour / NanosPerMinute
    ensures CivilOf(t).second == t % NanosPerMinute / NanosPerSecond
    ensures CivilOf(t).nanosecond == t % NanosPerSecond
  {
    ReadingIsSplit(t);
    ModOfMod(t, NanosPerDay, NanosPerHour, 24);
    ModOfMod(t % NanosPerDay, NanosPerHour, NanosPerMinute, 60);
    ModOfMod(t, NanosPerHour, NanosPerMinute, 60);
    ModOfMod(t % NanosPerDay % NanosPerHour, NanosPerMinute, NanosPerSecond, 60);
    ModOfMod(t, NanosPerMinute, NanosPerSecond, 60);
  }

  /** The clock fields depend only on the time of day. */
  lemma ClockOfDay(t: int)
    ensures var x := t % NanosPerDay;
      && CivilOf(t).hour == x / NanosPerHour
      && CivilOf(t).minute == x % NanosPerHour / NanosPerMinute
      && CivilOf(t).second == x % NanosPerHour % NanosPerMinute / NanosPerSecond
      && CivilOf(t).nanosecond == x % NanosPerHour % NanosPerMinute % NanosPerSecond
  {
    ReadingIsSplit(t);
  }

  /** Moving an instant by whole days keeps all of its clock fields. */
  lemma WholeDaysKeepClock(t: int, k: int)
    ensures var a, b := CivilOf(t), CivilOf(t + k * NanosPerDay);
      b.hour == a.hour && b.minute == a.minute && b.second == a.second && b.nanosecond == a.nanosecond
  {
    ClockOfDay(t);
    ClockOfDay(t + k * NanosPerDay);
    ModShift(t, k, NanosPerDay);
  }

  /** Moving an instant by whole hours keeps its minute, second and
      nanosecond. */
  lemma WholeHoursKeepMinute(t: int, k: int)
    ensures var a, b := CivilOf(t), CivilOf(t + k * NanosPerHour);
      b.minute == a.minute && b.second == a.second && b.nanosecond == a.nanosecond
  {
    ClockFields(t);
    ClockFields(t + k * NanosPerHour);
    assert (t + k * NanosPerHour) % NanosPerHour == t % NanosPerHour by {
      ModShift(t, k, NanosPerHour);
    }
    assert (t + k * NanosPerHour) % NanosPerMinute == t % NanosPerMinute by {
      ModShift(t, 60 * k, NanosPerMinute);
    }
    assert (t + k * NanosPerHour) % NanosPerSecond == t % NanosPerSecond by {
      ModShift(t, 3600 * k, NanosPerSecond);
    }
  }

  /** Moving an instant by whole minutes keeps its second and nanosecond. */
  lemma WholeMinutesKeepSecond(t: int, k: int)
    ensures var a, b := CivilOf(t), CivilOf(t + k * NanosPerMinute);
      b.second == a.second && b.nanosecond == a.nanosecond
  {
    ClockFields(t);
    ClockFields(t + k * NanosPerMinute);
    assert (t + k * NanosPerMinute) % NanosPerMinute == t % NanosPerMinute by {
      ModShift(t, k, NanosPerMinute);
    }
    assert (t + k * NanosPerMinute) % NanosPerSecond == t % NanosPerSecond by {
      ModShift(t, 60 * k, NanosPerSecond);
    }
  }

  /** Moving an instant by whole seconds keeps its nanosecond. */
  lemma WholeSecondsKeepNanosecond(t: int, k: int)
    ensures CivilOf(t + k * NanosPerSecond).nanosecond == CivilOf(t).nanosecond
  {
    ClockFields(t);
    ClockFields(t + k * NanosPerSecond);
    ModShift(t, k, NanosPerSecond);
  }

  lemma MulAtLeast(a: int, d: int)
    requires a >= 1 && d > 0
    ensures a * d >= d
  {
  }

  /** `SplitEra` inverts `YearStart`: a day of the era determines its
      March-based year and its day in that year. */
  lemma SplitEraUnique(yoe: int, doy: int)
    requires 0 <= yoe < 400 && 0 <= doy
    requires doy < 365 || (doy == 365 && EraLeap(yoe))
    ensures 0 <= YearStart(yoe) + doy < 146097
    ensures SplitEra(YearStart(yoe) + doy) == (yoe, doy)
  {
    if yoe < 399 {
      YearStartGrows(yoe, 399);
    }
    var s := SplitEra(YearStart(yoe) + doy);
    if s.0 < yoe {
      YearStartGrows(s.0, yoe);
    } else if yoe < s.0 {
      YearStartGrows(yoe, s.0);
    }
  }

  /** A later March-based year of an era starts no earlier than an earlier
      one ends. */
  lemma {:induction false} YearStartGrows(y1: int, y2: int)
    requires 0 <= y1 < y2 < 400
    ensures YearStart(y1) + (if EraLeap(y1) then 366 else 365) <= YearStart(y2)
  {
    YearStartStep(y2 - 1);
    if y1 < y2 - 1 {
      YearStartGrows(y1, y2 - 1);
    }
  }

  /** Each month holds exactly as many days as `DaysIn` says: the next month
      starts right after its last day. */
  lemma {:induction false} NextMonthStart(y: int, m: int)
    requires 1 <= m <= 12
    ensures m < 12 ==> FirstOfMonth(y, m + 1) == FirstOfMonth(y, m) + DaysIn(y, m)
    ensures m == 12 ==> FirstOfMonth(y + 1, 1) == FirstOfMonth(y, m) + DaysIn(y, m)
  {
    if m == 2 {
      MarchFirstStep(y - 1);
    }
  }

  /** A month starts no earlier than January of its year. */
  lemma {:induction false} MonthsFromJanuary(y: int, m: int)
    requires 1 <= m <= 12
    ensures FirstOfMonth(y, 1) <= FirstOfMonth(y, m)
  {
    if m > 1 {
      MonthsFromJanuary(y, m - 1);
      NextMonthStart(y, m - 1);
    }
  }

  /** An earlier month of the same year ends no later than a later one
      starts. */
  lemma {:induction false} MonthGap(y: int, m1: int, m2: int)
    requires 1 <= m1 < m2 <= 12
    ensures FirstOfMonth(y, m1) + DaysIn(y, m1) <= FirstOfMonth(y, m2)
  {
    NextMonthStart(y, m2 - 1);
    if m1 < m2 - 1 {
      MonthGap(y, m1, m2 - 1);
    }
  }

  /** From the first of January to the first of the next January there are
      366 days in a leap year and 365 otherwise. */
  lemma YearLength(y: int)
    ensures FirstOfMonth(y + 1, 1) - FirstOfMonth(y, 1) == if IsLeap(y) then 366 else 365
  {
    MarchFirstStep(y - 1);
  }

  /** A March-based year lasts 366 days when the leap day of the following
      calendar year falls in it, 365 days otherwise. */
  lemma MarchFirstStep(yp: int)
    ensures MarchFirst(yp + 1) == MarchFirst(yp) + (if IsLeap(yp + 1) then 366 else 365)
  {
    var era := yp / 400;
    var yoe := yp % 400;
    EraLeapIsLeap(era, yoe);
    if yoe < 399 {
      DivMod(yp + 1, 400, era, yoe + 1);
      YearStartStep(yoe);
    } else {
      DivMod(yp + 1, 400, era + 1, 0);
    }
  }

  /** Inside an era, a March-based year lasts 366 days when `EraLeap` picks
      it out and 365 days otherwise. */
  lemma YearStartStep(yoe: int)
    requires 0 <= yoe < 399
    ensures YearStart(yoe + 1) == YearStart(yoe) + (if EraLeap(yoe) then 366 else 365)
  {
    var c := yoe / 100;
    var q := yoe % 100 / 4;
    var r := yoe % 100 % 4;
    assert yoe == 100 * c + 4 * q + r && 0 <= c < 4 && 0 <= q < 25 && 0 <= r < 4;
    DivMod(yoe, 4, 25 * c + q, r);
    DivMod(yoe, 100, c, 4 * q + r);
    if r < 3 {
      DivMod(yoe + 1, 4, 25 * c + q, r + 1);
      DivMod(yoe + 1, 100, c, 4 * q + r + 1);
    } else if q < 24 {
      DivMod(yoe + 1, 4, 25 * c + q + 1, 0);
      DivMod(yoe + 1, 100, c, 4 * q + 4);
    } else {
      DivMod(yoe + 1, 4, 25 * c + 25, 0);
      DivMod(yoe + 1, 100, c + 1, 0);
    }
  }

  /** Every day number names a valid calendar date, and counting the days of
      that date gives the day number back. */
  lemma CivilFromDaysSound(z: int)
    ensures var r := CivilFromDays(z);
      1 <= r.2 <= DaysIn(r.0, r.1) && DaysFromCivil(r.0, r.1, r.2) == z
  {
    var zz := z + EpochOffset;
    var era := zz / 146097;
    var split := SplitEra(zz % 146097);
    var yoe, doy := split.0, split.1;
    var mp := MonthOfDay(doy);
    var r := CivilFromDays(z);
    assert r == (400 * era + yoe + (if CalendarMonth(mp) <= 2 then 1 else 0), CalendarMonth(mp), doy - MonthStart(mp) + 1);
    var yp := 400 * era + yoe;
    assert MarchYear(r.0, r.1) == yp && MarchMonth(r.1) == mp;
    assert r.2 <= DaysIn(r.0, r.1) by {
      DayInMonth(r.0, era, yoe, doy, mp);
    }
    assert DaysFromCivil(r.0, r.1, r.2) == z by {
      DivMod(yp, 400, era, yoe);
      assert MarchFirst(yp) == 146097 * era + YearStart(yoe);
    }
  }

  /** The day of the month found from a day of a March-based year is within
      the length of that month. */
  lemma DayInMonth(y: int, era: int, yoe: int, doy: int, mp: int)
    requires 0 <= yoe < 400 && 0 <= doy && (doy < 365 || (doy == 365 && EraLeap(yoe)))
    requires mp == MonthOfDay(doy)
    requires y == 400 * era + yoe + (if CalendarMonth(mp) <= 2 then 1 else 0)
    ensures doy - MonthStart(mp) + 1 <= DaysIn(y, CalendarMonth(mp))
  {
    MonthLengths(y, mp);
    if mp == 11 {
      EraLeapIsLeap(era, yoe);
    }
  }

  /** The March-based months have the lengths of the calendar months. */
  lemma MonthLengths(y: int, mp: int)
    requires 0 <= mp <= 11
    ensures mp < 11 ==> MonthStart(mp + 1) - MonthStart(mp) == DaysIn(y, CalendarMonth(mp))
    ensures mp == 11 ==> CalendarMonth(mp) == 2
  {
  }

  /** Counting the days of a valid date and converting back gives the date. */
  lemma DaysFromCivilInverse(y: int, m: int, d: int)
    requires 1 <= m <= 12 && 1 <= d <= DaysIn(y, m)
    ensures CivilFromDays(DaysFromCivil(y, m, d)) == (y, m, d)
  {
    var yp := MarchYear(y, m);
    var era, yoe := yp / 400, yp % 400;
    var doy := MonthStart(MarchMonth(m)) + d - 1;
    DayOfMarchYear(y, m, d, era, yoe);
    SplitEraUnique(yoe, doy);
    EraOfDay(y, m, d);
    assert CalendarMonth(MarchMonth(m)) == m;
  }

  /** The era of a date and the day of that era it falls on. */
  lemma EraOfDay(y: int, m: int, d: int)
    requires 1 <= m <= 12
    requires 0 <= YearStart(MarchYear(y, m) % 400) + MonthStart(MarchMonth(m)) + d - 1 < 146097
    ensures var zz := DaysFromCivil(y, m, d) + EpochOffset;
      && zz / 146097 == MarchYear(y, m) / 400
      && zz % 146097 == YearStart(MarchYear(y, m) % 400) + MonthStart(MarchMonth(m)) + d - 1
  {
    var yp := MarchYear(y, m);
    DivMod(DaysFromCivil(y, m, d) + EpochOffset, 146097, yp / 400,
           YearStart(yp % 400) + MonthStart(MarchMonth(m)) + d - 1);
  }

  /** Day `d` of month `m` is a day of its March-based year that lies in the
      March-based month of `m`, and is its 366th day only in a leap year. */
  lemma DayOfMarchYear(y: int, m: int, d: int, era: int, yoe: int)
    requires 1 <= m <= 12 && 1 <= d <= DaysIn(y, m)
    requires era == MarchYear(y, m) / 400 && yoe == MarchYear(y, m) % 400
    ensures var doy := MonthStart(MarchMonth(m)) + d - 1;
      && 0 <= doy && (doy < 365 || (doy == 365 && EraLeap(yoe)))
      && MonthOfDay(doy) == MarchMonth(m)
  {
    EraLeapIsLeap(era, yoe);
    assert 400 * era + yoe + 1 == y || m > 2;
  }

  /** `SplitInstant` inverts `TimeDate` on valid fields. */
  lemma SplitInstantTimeDate(c: Civil)
    requires ValidCivil(c)
    ensures SplitInstant(TimeDate(c.year, c.month, c.day, c.hour, c.minute, c.second, c.nanosecond)) == c
  {
    var days := DaysFromCivil(c.year, c.month, c.day);
    var inMinute := c.second * NanosPerSecond + c.nanosecond;
    var inHour := c.minute * NanosPerMinute + inMinute;
    var tod := c.hour * NanosPerHour + inHour;
    var t := TimeDate(c.year, c.month, c.day, c.hour, c.minute, c.second, c.nanosecond);
    assert (c.month - 1) / 12 == 0 && (c.month - 1) % 12 + 1 == c.month;
    assert t == days * NanosPerDay + tod;
    DivMod(t, NanosPerDay, days, tod);
    DivMod(tod, NanosPerHour, c.hour, inHour);
    DivMod(inHour, NanosPerMinute, c.minute, inMinute);
    DivMod(inMinute, NanosPerSecond, c.second, c.nanosecond);
    DaysFromCivilInverse(c.year, c.month, c.day);
  }

  /** An instant has at most one valid reading. */
  lemma ReadingUnique(t: int)
    ensures forall a, b :: ReadsAs(t, a) && ReadsAs(t, b) ==> a == b
  {
    forall a, b | ReadsAs(t, a) && ReadsAs(t, b)
      ensures a == b
    {
      SplitInstantTimeDate(a);
      SplitInstantTimeDate(b);
    }
  }

  /** The reading of an instant is the one `SplitInstant` computes. */
  lemma ReadingIsSplit(t: int)
    ensures CivilOf(t) == SplitInstant(t)
  {
    ReadingUnique(t);
  }

  /** `CivilOf` inverts `TimeDate` on valid fields. */
  lemma CivilOfTimeDate(c: Civil)
    requires ValidCivil(c)
    ensures CivilOf(TimeDate(c.year, c.month, c.day, c.hour, c.minute, c.second, c.nanosecond)) == c
  {
    var r := CivilOf(TimeDate(c.year, c.month, c.day, c.hour, c.minute, c.second, c.nanosecond));
    SplitInstantTimeDate(r);
    SplitInstantTimeDate(c);
  }

  /** Within a year, the instant of valid fields grows with month, day and
      time of day. */
  lemma InstantOrder(a: Civil, b: Civil)
    requires ValidCivil(a) && ValidCivil(b) && SameYearNotLater(a, b)
    ensures TimeDate(a.year, a.month, a.day, a.hour, a.minute, a.second, a.nanosecond)
         <= TimeDate(b.year, b.month, b.day, b.hour, b.minute, b.second, b.nanosecond)
  {
    TimeDateInRange(a.year, a.month, a.day, a.hour, a.minute, a.second, a.nanosecond);
    TimeDateInRange(b.year, b.month, b.day, b.hour, b.minute, b.second, b.nanosecond);
    assert 0 <= ClockNanos(a) < NanosPerDay && 0 <= ClockNanos(b);
    if a.month < b.month {
      MonthGap(a.year, a.month, b.month);
    }
  }

  /** The day before the first of the month after month `m` is the last day
      of month `m`, at the same time of day. */
  lemma LastDayBefore(y: int, m: int, clock: Civil)
    requires 1 <= m <= 12 && ValidClock(clock)
    ensures CivilOf(TimeDate(NextMonth(y, m).0, NextMonth(y, m).1, 1, clock.hour, clock.minute, clock.second,
                             clock.nanosecond) - NanosPerDay)
         == Civil(y, m, DaysIn(y, m), clock.hour, clock.minute, clock.second, clock.nanosecond)
  {
    DayBeforeNextMonth(y, m, clock);
    CivilOfTimeDate(Civil(y, m, DaysIn(y, m), clock.hour, clock.minute, clock.second, clock.nanosecond));
  }

  /** The first of the next month is one day after the last of this one. */
  lemma DayBeforeNextMonth(y: int, m: int, clock: Civil)
    requires 1 <= m <= 12
    ensures TimeDate(NextMonth(y, m).0, NextMonth(y, m).1, 1, clock.hour, clock.minute, clock.second,
                     clock.nanosecond) - NanosPerDay
         == TimeDate(y, m, DaysIn(y, m), clock.hour, clock.minute, clock.second, clock.nanosecond)
  {
    var n := NextMonth(y, m);
    TimeDateInRange(n.0, n.1, 1, clock.hour, clock.minute, clock.second, clock.nanosecond);
    TimeDateInRange(y, m, DaysIn(y, m), clock.hour, clock.minute, clock.second, clock.nanosecond);
  }
}
