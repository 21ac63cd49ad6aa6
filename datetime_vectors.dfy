/** The examples of datetime_test.go, stated about the model. */
module DateTimeVectors {
  import opened Calendar
  import opened DateTimes

  /** 1500000000 seconds after the epoch is 2017-07-14 02:40:00 UTC, and the
      timestamp of that value is 1500000000. */
  lemma UnixTimestampVector()
    ensures FromUnixTimestamp(1500000000) == NewUTCDateTime(2017, 7, 14, 2, 40, 0, 0)
    ensures UnixTimestamp(NewUTCDateTime(2017, 7, 14, 2, 40, 0, 0)) == 1500000000
  {
    assert DaysFromCivil(2017, 7, 14) == 17361 by {
      MarchFirstInEra(2017, 17, 736694);
    }
    assert NewUTCDateTime(2017, 7, 14, 2, 40, 0, 0).instant == 1500000000 * NanosPerSecond;
    DivMod(1500000000 * NanosPerSecond, NanosPerSecond, 1500000000, 0);
  }

  /** Day count of 1 March of a year of the era that started in 2000. */
  lemma MarchFirstInEra(yp: int, yoe: int, days: int)
    requires 2000 <= yp < 2400 && yoe == yp - 2000
    requires days == 146097 * 5 + 365 * yoe + yoe / 4 - yoe / 100
    ensures MarchFirst(yp) == days
  {
    DivMod(yp, 400, 5, yoe);
  }

  /** Milli- and microsecond shifts from 2020-01-01 12:00:00. */
  lemma SubSecondShiftVectors()
    ensures ShiftMilliSeconds(NewUTCDateTime(2020, 1, 1, 12, 0, 0, 0), 10)
         == NewUTCDateTime(2020, 1, 1, 12, 0, 0, 10000000)
    ensures ShiftMilliSeconds(NewUTCDateTime(2020, 1, 1, 12, 0, 0, 0), 0)
         == NewUTCDateTime(2020, 1, 1, 12, 0, 0, 0)
    ensures ShiftMilliSeconds(NewUTCDateTime(2020, 1, 1, 12, 0, 0, 0), -20)
         == NewUTCDateTime(2020, 1, 1, 11, 59, 59, 980000000)
    ensures ShiftMicroSeconds(NewUTCDateTime(2020, 1, 1, 12, 0, 0, 0), 10)
         == NewUTCDateTime(2020, 1, 1, 12, 0, 0, 10000)
    ensures ShiftMicroSeconds(NewUTCDateTime(2020, 1, 1, 12, 0, 0, 0), 0)
         == NewUTCDateTime(2020, 1, 1, 12, 0, 0, 0)
    ensures ShiftMicroSeconds(NewUTCDateTime(2020, 1, 1, 12, 0, 0, 0), -20)
         == NewUTCDateTime(2020, 1, 1, 11, 59, 59, 999980000)
  {
  }

  /** The calendar part of the shift below: ten years and two months on
      from 2020-01-01 12:00:01 is 2030-03-01 12:00:01. */
  lemma ShiftCalendarVector()
    ensures Fields(ShiftMonths(ShiftYears(NewUTCDateTime(2020, 1, 1, 12, 0, 1, 0), 10), 2))
         == Civil(2030, 3, 1, 12, 0, 1, 0)
  {
    ShiftYearsVector();
  }

  /** Ten years on from 2020-01-01 12:00:01. */
  lemma ShiftYearsVector()
    ensures Fields(ShiftYears(NewUTCDateTime(2020, 1, 1, 12, 0, 1, 0), 10)) == Civil(2030, 1, 1, 12, 0, 1, 0)
  {
    assert Fields(NewUTCDateTime(2020, 1, 1, 12, 0, 1, 0)) == Civil(2020, 1, 1, 12, 0, 1, 0);
  }

  /** 2030-03-01 12:00:01 less 3 days and 2 hours, plus 20 minutes and 12
      seconds, less 20 nanoseconds, is 2030-02-26 10:20:12.999999980. */
  lemma ShiftArithmeticVector()
    ensures TimeDate(2030, 3, 1, 12, 0, 1, 0) - 3 * NanosPerDay - 2 * NanosPerHour
            + 20 * NanosPerMinute + 12 * NanosPerSecond - 20
         == TimeDate(2030, 2, 26, 10, 20, 12, 999999980)
  {
    MarchFirstInEra(2030, 30, 741442);
    MarchFirstInEra(2029, 29, 741077);
    TimeDateInRange(2030, 3, 1, 12, 0, 1, 0);
    TimeDateInRange(2030, 2, 26, 10, 20, 12, 999999980);
  }

  /** 2020-01-01 12:00:01 shifted by 10 years, 2 months, -3 days, -2 hours,
      20 minutes, 12 seconds and -20 nanoseconds. */
  lemma ShiftVector()
    ensures Shift(NewUTCDateTime(2020, 1, 1, 12, 0, 1, 0), 10, 2, -3, -2, 20, 12, -20)
         == NewUTCDateTime(2030, 2, 26, 10, 20, 12, 999999980)
  {
    var m := ShiftMonths(ShiftYears(NewUTCDateTime(2020, 1, 1, 12, 0, 1, 0), 10), 2);
    ShiftCalendarVector();
    assert m.instant == TimeDate(2030, 3, 1, 12, 0, 1, 0);
    ShiftArithmeticVector();
  }

  /** Every field of 2020-01-01 12:00:01 replaced. */
  lemma ReplaceVector()
    ensures Replace(NewUTCDateTime(2020, 1, 1, 12, 0, 1, 0), 2030, 2, 26, 10, 20, 12, 999999980)
         == NewUTCDateTime(2030, 2, 26, 10, 20, 12, 999999980)
  {
    assert Fields(NewUTCDateTime(2020, 1, 1, 12, 0, 1, 0)) == Civil(2020, 1, 1, 12, 0, 1, 0);
  }

  /** Zone and calendar triple. */
  lemma AccessorVectors()
    ensures Timezone(NewUTCDateTime(2020, 1, 1, 12, 0, 0, 0)) == UTC
    ensures IsoCalendar(NewUTCDateTime(2020, 12, 15, 12, 0, 0, 0)) == (2020, 12, 15)
  {
    assert Fields(NewUTCDateTime(2020, 12, 15, 12, 0, 0, 0)) == Civil(2020, 12, 15, 12, 0, 0, 0);
  }

  /** 2020-01-01 was a Wednesday. */
  lemma WeekDayVector()
    ensures WeekDay(NewUTCDateTime(2020, 1, 1, 12, 0, 0, 0)) == 3
  {
    var dt := NewUTCDateTime(2020, 1, 1, 12, 0, 0, 0);
    assert dt.instant == 18262 * NanosPerDay + 12 * NanosPerHour by {
      MarchFirstInEra(2019, 19, 737424);
      TimeDateInRange(2020, 1, 1, 12, 0, 0, 0);
    }
    DivMod(dt.instant, NanosPerDay, 18262, 12 * NanosPerHour);
    assert dt.instant / NanosPerDay + 4 == 18266;
  }

  /** 2020-01-01 12:00 is strictly between 11:00 and 13:00, and not between
      13:00 and 14:00. */
  lemma IsBetweenVectors()
    ensures IsBetween(NewUTCDateTime(2020, 1, 1, 12, 0, 0, 0),
                      NewUTCDateTime(2020, 1, 1, 11, 0, 0, 0), NewUTCDateTime(2020, 1, 1, 13, 0, 0, 0))
    ensures !IsBetween(NewUTCDateTime(2020, 1, 1, 12, 0, 0, 0),
                       NewUTCDateTime(2020, 1, 1, 13, 0, 0, 0), NewUTCDateTime(2020, 1, 1, 14, 0, 0, 0))
  {
  }

  /** The floor of the year of 2020-12-15 12:12:49.000000234. */
  lemma FloorYearVector()
    ensures FloorYear(NewUTCDateTime(2020, 12, 15, 12, 12, 49, 234)) == NewUTCDateTime(2020, 1, 1, 0, 0, 0, 0)
  {
    var dt := NewUTCDateTime(2020, 12, 15, 12, 12, 49, 234);
    assert Fields(dt) == Civil(2020, 12, 15, 12, 12, 49, 234);
    FieldsDetermine(FloorYear(dt), NewUTCDateTime(2020, 1, 1, 0, 0, 0, 0));
  }

  /** The floor of the month of 2020-12-15 12:12:49.000000234. */
  lemma FloorMonthVector()
    ensures FloorMonth(NewUTCDateTime(2020, 12, 15, 12, 12, 49, 234)) == NewUTCDateTime(2020, 12, 1, 0, 0, 0, 0)
  {
    var dt := NewUTCDateTime(2020, 12, 15, 12, 12, 49, 234);
    assert Fields(dt) == Civil(2020, 12, 15, 12, 12, 49, 234);
    FieldsDetermine(FloorMonth(dt), NewUTCDateTime(2020, 12, 1, 0, 0, 0, 0));
  }

  /** The floor of the day of 2020-12-15 12:12:49.000000234. */
  lemma FloorDayVector()
    ensures FloorDay(NewUTCDateTime(2020, 12, 15, 12, 12, 49, 234)) == NewUTCDateTime(2020, 12, 15, 0, 0, 0, 0)
  {
    var dt := NewUTCDateTime(2020, 12, 15, 12, 12, 49, 234);
    assert Fields(dt) == Civil(2020, 12, 15, 12, 12, 49, 234);
    FieldsDetermine(FloorDay(dt), NewUTCDateTime(2020, 12, 15, 0, 0, 0, 0));
  }

  /** The floor of the hour of 2020-12-15 12:12:49.000000234. */
  lemma FloorHourVector()
    ensures FloorHour(NewUTCDateTime(2020, 12, 15, 12, 12, 49, 234)) == NewUTCDateTime(2020, 12, 15, 12, 0, 0, 0)
  {
    var dt := NewUTCDateTime(2020, 12, 15, 12, 12, 49, 234);
    assert Fields(dt) == Civil(2020, 12, 15, 12, 12, 49, 234);
    FieldsDetermine(FloorHour(dt), NewUTCDateTime(2020, 12, 15, 12, 0, 0, 0));
  }

  /** The floor of the minute of 2020-12-15 12:12:49.000000234. */
  lemma FloorMinuteVector()
    ensures FloorMinute(NewUTCDateTime(2020, 12, 15, 12, 12, 49, 234)) == NewUTCDateTime(2020, 12, 15, 12, 12, 0, 0)
  {
    var dt := NewUTCDateTime(2020, 12, 15, 12, 12, 49, 234);
    assert Fields(dt) == Civil(2020, 12, 15, 12, 12, 49, 234);
    FieldsDetermine(FloorMinute(dt), NewUTCDateTime(2020, 12, 15, 12, 12, 0, 0));
  }

  /** The floor of the second of 2020-12-15 12:12:49.000000234. */
  lemma FloorSecondVector()
    ensures FloorSecond(NewUTCDateTime(2020, 12, 15, 12, 12, 49, 234)) == NewUTCDateTime(2020, 12, 15, 12, 12, 49, 0)
  {
    var dt := NewUTCDateTime(2020, 12, 15, 12, 12, 49, 234);
    assert Fields(dt) == Civil(2020, 12, 15, 12, 12, 49, 234);
    FieldsDetermine(FloorSecond(dt), NewUTCDateTime(2020, 12, 15, 12, 12, 49, 0));
  }

  /** The ceiling of the year of 2020-12-15 12:12:49.000000234. */
  lemma CeilYearVector()
    ensures CeilYear(NewUTCDateTime(2020, 12, 15, 12, 12, 49, 234)) == NewUTCDateTime(2020, 12, 31, 23, 59, 59, 999999999)
  {
    var dt := NewUTCDateTime(2020, 12, 15, 12, 12, 49, 234);
    assert Fields(dt) == Civil(2020, 12, 15, 12, 12, 49, 234);
    FieldsDetermine(CeilYear(dt), NewUTCDateTime(2020, 12, 31, 23, 59, 59, 999999999));
  }

  /** The floor, ceiling and span of the year of 2020-02-15 12:12:49.000000234. */
  lemma YearVectors()
    ensures FloorYear(NewUTCDateTime(2020, 2, 15, 12, 12, 49, 234)) == NewUTCDateTime(2020, 1, 1, 0, 0, 0, 0)
    ensures CeilYear(NewUTCDateTime(2020, 2, 15, 12, 12, 49, 234)) == NewUTCDateTime(2020, 12, 31, 23, 59, 59, 999999999)
    ensures SpanYear(NewUTCDateTime(2020, 2, 15, 12, 12, 49, 234)) == (NewUTCDateTime(2020, 1, 1, 0, 0, 0, 0), NewUTCDateTime(2020, 12, 31, 23, 59, 59, 999999999))
  {
    var dt := NewUTCDateTime(2020, 2, 15, 12, 12, 49, 234);
    assert Fields(dt) == Civil(2020, 2, 15, 12, 12, 49, 234);
    FieldsDetermine(FloorYear(dt), NewUTCDateTime(2020, 1, 1, 0, 0, 0, 0));
    FieldsDetermine(CeilYear(dt), NewUTCDateTime(2020, 12, 31, 23, 59, 59, 999999999));
  }

  /** The floor of the month of 2020-02-15 12:12:49.000000234. */
  lemma FebruaryFloorVector()
    ensures FloorMonth(NewUTCDateTime(2020, 2, 15, 12, 12, 49, 234)) == NewUTCDateTime(2020, 2, 1, 0, 0, 0, 0)
  {
    var dt := NewUTCDateTime(2020, 2, 15, 12, 12, 49, 234);
    assert Fields(dt) == Civil(2020, 2, 15, 12, 12, 49, 234);
    FieldsDetermine(FloorMonth(dt), NewUTCDateTime(2020, 2, 1, 0, 0, 0, 0));
  }

  /** The ceiling of the month of 2020-02-15 12:12:49.000000234: February
      2020 ends on the 29th. */
  lemma CeilMonthVector()
    ensures CeilMonth(NewUTCDateTime(2020, 2, 15, 12, 12, 49, 234)) == NewUTCDateTime(2020, 2, 29, 23, 59, 59, 999999999)
  {
    var dt := NewUTCDateTime(2020, 2, 15, 12, 12, 49, 234);
    assert Day(dt) == 15;
    CeilMonthAgrees(dt);
    LastDayVector();
  }

  /** The last instant of February 2020. */
  lemma LastDayVector()
    ensures CeilMonthLastDay(NewUTCDateTime(2020, 2, 15, 12, 12, 49, 234)) == NewUTCDateTime(2020, 2, 29, 23, 59, 59, 999999999)
  {
    var dt := NewUTCDateTime(2020, 2, 15, 12, 12, 49, 234);
    assert Fields(dt) == Civil(2020, 2, 15, 12, 12, 49, 234);
    assert Fields(CeilMonthLastDay(dt)) == Civil(2020, 2, 29, 23, 59, 59, 999999999);
    FieldsDetermine(CeilMonthLastDay(dt), NewUTCDateTime(2020, 2, 29, 23, 59, 59, 999999999));
  }

  /** The span of the month of 2020-02-15 12:12:49.000000234. */
  lemma SpanMonthVector()
    ensures SpanMonth(NewUTCDateTime(2020, 2, 15, 12, 12, 49, 234)) == (NewUTCDateTime(2020, 2, 1, 0, 0, 0, 0), NewUTCDateTime(2020, 2, 29, 23, 59, 59, 999999999))
  {
    FebruaryFloorVector();
    CeilMonthVector();
  }

  /** The floor, ceiling and span of the day of 2020-02-15 12:12:49.000000234. */
  lemma DayVectors()
    ensures FloorDay(NewUTCDateTime(2020, 2, 15, 12, 12, 49, 234)) == NewUTCDateTime(2020, 2, 15, 0, 0, 0, 0)
    ensures CeilDay(NewUTCDateTime(2020, 2, 15, 12, 12, 49, 234)) == NewUTCDateTime(2020, 2, 15, 23, 59, 59, 999999999)
    ensures SpanDay(NewUTCDateTime(2020, 2, 15, 12, 12, 49, 234)) == (NewUTCDateTime(2020, 2, 15, 0, 0, 0, 0), NewUTCDateTime(2020, 2, 15, 23, 59, 59, 999999999))
  {
    var dt := NewUTCDateTime(2020, 2, 15, 12, 12, 49, 234);
    assert Fields(dt) == Civil(2020, 2, 15, 12, 12, 49, 234);
    FieldsDetermine(FloorDay(dt), NewUTCDateTime(2020, 2, 15, 0, 0, 0, 0));
    FieldsDetermine(CeilDay(dt), NewUTCDateTime(2020, 2, 15, 23, 59, 59, 999999999));
  }

  /** The floor, ceiling and span of the hour of 2020-02-15 12:12:49.000000234. */
  lemma HourVectors()
    ensures FloorHour(NewUTCDateTime(2020, 2, 15, 12, 12, 49, 234)) == NewUTCDateTime(2020, 2, 15, 12, 0, 0, 0)
    ensures CeilHour(NewUTCDateTime(2020, 2, 15, 12, 12, 49, 234)) == NewUTCDateTime(2020, 2, 15, 12, 59, 59, 999999999)
    ensures SpanHour(NewUTCDateTime(2020, 2, 15, 12, 12, 49, 234)) == (NewUTCDateTime(2020, 2, 15, 12, 0, 0, 0), NewUTCDateTime(2020, 2, 15, 12, 59, 59, 999999999))
  {
    var dt := NewUTCDateTime(2020, 2, 15, 12, 12, 49, 234);
    assert Fields(dt) == Civil(2020, 2, 15, 12, 12, 49, 234);
    FieldsDetermine(FloorHour(dt), NewUTCDateTime(2020, 2, 15, 12, 0, 0, 0));
    FieldsDetermine(CeilHour(dt), NewUTCDateTime(2020, 2, 15, 12, 59, 59, 999999999));
  }

  /** The floor, ceiling and span of the minute of 2020-02-15 12:12:49.000000234. */
  lemma MinuteVectors()
    ensures FloorMinute(NewUTCDateTime(2020, 2, 15, 12, 12, 49, 234)) == NewUTCDateTime(2020, 2, 15, 12, 12, 0, 0)
    ensures CeilMinute(NewUTCDateTime(2020, 2, 15, 12, 12, 49, 234)) == NewUTCDateTime(2020, 2, 15, 12, 12, 59, 999999999)
    ensures SpanMinute(NewUTCDateTime(2020, 2, 15, 12, 12, 49, 234)) == (NewUTCDateTime(2020, 2, 15, 12, 12, 0, 0), NewUTCDateTime(2020, 2, 15, 12, 12, 59, 999999999))
  {
    var dt := NewUTCDateTime(2020, 2, 15, 12, 12, 49, 234);
    assert Fields(dt) == Civil(2020, 2, 15, 12, 12, 49, 234);
    FieldsDetermine(FloorMinute(dt), NewUTCDateTime(2020, 2, 15, 12, 12, 0, 0));
    FieldsDetermine(CeilMinute(dt), NewUTCDateTime(2020, 2, 15, 12, 12, 59, 999999999));
  }

  /** The floor, ceiling and span of the second of 2020-02-15 12:12:49.000000234. */
  lemma SecondVectors()
    ensures FloorSecond(NewUTCDateTime(2020, 2, 15, 12, 12, 49, 234)) == NewUTCDateTime(2020, 2, 15, 12, 12, 49, 0)
    ensures CeilSecond(NewUTCDateTime(2020, 2, 15, 12, 12, 49, 234)) == NewUTCDateTime(2020, 2, 15, 12, 12, 49, 999999999)
    ensures SpanSecond(NewUTCDateTime(2020, 2, 15, 12, 12, 49, 234)) == (NewUTCDateTime(2020, 2, 15, 12, 12, 49, 0), NewUTCDateTime(2020, 2, 15, 12, 12, 49, 999999999))
  {
    var dt := NewUTCDateTime(2020, 2, 15, 12, 12, 49, 234);
    assert Fields(dt) == Civil(2020, 2, 15, 12, 12, 49, 234);
    FieldsDetermine(FloorSecond(dt), NewUTCDateTime(2020, 2, 15, 12, 12, 49, 0));
    FieldsDetermine(CeilSecond(dt), NewUTCDateTime(2020, 2, 15, 12, 12, 49, 999999999));
  }
}
