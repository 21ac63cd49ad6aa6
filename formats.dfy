/** The predefined symbolic layouts and what they translate to. */
module Formats {
  import opened Formatting
  import opened FormattingVectors

  /** ISO 8601 with microseconds, e.g. 2012-12-12T12:12:12.000000. */
  const Iso8601: string := "YYYY-MM-DDTHH:mm:ss.S"

  /** ISO 8601 with microseconds and the zone offset. */
  const Iso8601TZ: string := "YYYY-MM-DDTHH:mm:ss.SZ"

  /** The ctime layout, e.g. Sat Jan 19 18:26:50 2019. */
  const CTime: string := "ddd MMM DD HH:mm:ss YYYY"

  // ---------------------------------------------------------------------
  // Translations, for any token list and table

  lemma Iso8601Layout(toks: seq<FormatToken>, table: map<FormatToken, GoFormatToken>)
    requires AllRuns(toks)
    requires DateEntries(toks, table) && ClockEntries(toks, table) && Entry("S", 20, "000000", toks, table)
    requires FirstMatch("T", toks).None? && FirstMatch(".", toks).None?
    ensures Translate("YYYY-MM-DDTHH:mm:ss.S", toks, table) == Success("2006-01-02T15:04:05.000000")
  {
    var date, clock := "YYYY-MM-DD", "HH:mm:ss";
    assert date + ("T" + (clock + ("." + "S"))) == "YYYY-MM-DDTHH:mm:ss.S";
    assert "2006-01-02" + ("T" + ("15:04:05" + ("." + "000000"))) == "2006-01-02T15:04:05.000000";
    DateLayout(toks, table);
    ClockLayout(toks, table);
    SingleToken("S", 20, "000000", toks, table);
    SingleChar('T', toks, table);
    SingleChar('.', toks, table);
    Chain5(date, "T", clock, ".", "S", date + ("T" + (clock + ("." + "S"))),
           "2006-01-02", "T", "15:04:05", ".", "000000",
           "2006-01-02" + ("T" + ("15:04:05" + ("." + "000000"))), toks, table);
  }

  /** A trailing "Z" adds the numeric zone offset to the translation of
      the layout before it. */
  lemma ZoneSuffixLayout(layout: string, toks: seq<FormatToken>, table: map<FormatToken, GoFormatToken>)
    requires AllRuns(toks)
    requires |layout| > 0 && layout[|layout| - 1] != 'Z'
    requires Entry("Z", 23, "Z0700", toks, table)
    ensures Translate(layout + "Z", toks, table) == Then(Translate(layout, toks, table), Success("Z0700"))
  {
    SingleToken("Z", 23, "Z0700", toks, table);
    TranslateConcat(layout, "Z", toks, table);
  }

  lemma Iso8601TZLayout(toks: seq<FormatToken>, table: map<FormatToken, GoFormatToken>)
    requires AllRuns(toks)
    requires DateEntries(toks, table) && ClockEntries(toks, table) && Entry("S", 20, "000000", toks, table)
    requires FirstMatch("T", toks).None? && FirstMatch(".", toks).None? && Entry("Z", 23, "Z0700", toks, table)
    ensures Translate("YYYY-MM-DDTHH:mm:ss.SZ", toks, table) == Success("2006-01-02T15:04:05.000000Z0700")
  {
    var iso := "YYYY-MM-DDTHH:mm:ss.S";
    assert iso + "Z" == "YYYY-MM-DDTHH:mm:ss.SZ";
    assert "2006-01-02T15:04:05.000000" + "Z0700" == "2006-01-02T15:04:05.000000Z0700";
    Iso8601Layout(toks, table);
    SingleToken("Z", 23, "Z0700", toks, table);
    Glue(iso, "Z", iso + "Z", "2006-01-02T15:04:05.000000", "Z0700",
         "2006-01-02T15:04:05.000000" + "Z0700", toks, table);
  }

  /** What the scan needs to know, beyond the clock, to translate the
      ctime layout. */
  predicate CTimeEntries(toks: seq<FormatToken>, table: map<FormatToken, GoFormatToken>)
  {
    Entry("ddd", 10, "Mon", toks, table) && Entry("MMM", 3, "Jan", toks, table) &&
    Entry("DD", 7, "02", toks, table) && Entry("YYYY", 0, "2006", toks, table) &&
    FirstMatch(" ", toks).None?
  }

  /** The weekday, month and day that open the ctime layout. */
  lemma CTimeDayLayout(toks: seq<FormatToken>, table: map<FormatToken, GoFormatToken>)
    requires AllRuns(toks)
    requires CTimeEntries(toks, table)
    ensures Translate("ddd MMM DD", toks, table) == Success("Mon Jan 02")
  {
    SingleToken("ddd", 10, "Mon", toks, table);
    SingleToken("MMM", 3, "Jan", toks, table);
    SingleToken("DD", 7, "02", toks, table);
    SingleChar(' ', toks, table);
    Chain5("ddd", " ", "MMM", " ", "DD", "ddd MMM DD",
           "Mon", " ", "Jan", " ", "02", "Mon Jan 02", toks, table);
  }

  lemma CTimeLayout(toks: seq<FormatToken>, table: map<FormatToken, GoFormatToken>)
    requires AllRuns(toks)
    requires CTimeEntries(toks, table) && ClockEntries(toks, table)
    ensures Translate("ddd MMM DD HH:mm:ss YYYY", toks, table) == Success("Mon Jan 02 15:04:05 2006")
  {
    var day, clock := "ddd MMM DD", "HH:mm:ss";
    assert day + (" " + (clock + (" " + "YYYY"))) == "ddd MMM DD HH:mm:ss YYYY";
    assert "Mon Jan 02" + (" " + ("15:04:05" + (" " + "2006"))) == "Mon Jan 02 15:04:05 2006";
    CTimeDayLayout(toks, table);
    ClockLayout(toks, table);
    SingleToken("YYYY", 0, "2006", toks, table);
    SingleChar(' ', toks, table);
    Chain5(day, " ", clock, " ", "YYYY", day + (" " + (clock + (" " + "YYYY"))),
           "Mon Jan 02", " ", "15:04:05", " ", "2006",
           "Mon Jan 02" + (" " + ("15:04:05" + (" " + "2006"))), toks, table);
  }

  // ---------------------------------------------------------------------
  // Translations with the library's own token list and table

  lemma CTimeEntriesHold()
    ensures CTimeEntries(AllFormatTokens, FormatTokenMap)
  {
    DayOfWeekAbbrEntry();
    MonthAbbrEntry();
    DayOfMonthZeroPaddedEntry();
    YearFullEntry();
    NoTokenAt(" ");
  }

  /** The "T" and the "." are copied; "S" becomes six fractional digits. */
  lemma Iso8601Vector()
    ensures TranslateFormat(Iso8601) == "2006-01-02T15:04:05.000000"
  {
    TokensAreRuns();
    DateEntriesHold();
    ClockEntriesHold();
    MicroSecondEntry();
    NoTokenAt("T");
    NoTokenAt(".");
    Iso8601Layout(AllFormatTokens, FormatTokenMap);
  }

  lemma Iso8601TZVector()
    ensures TranslateFormat(Iso8601TZ) == "2006-01-02T15:04:05.000000Z0700"
  {
    TokensAreRuns();
    DateEntriesHold();
    ClockEntriesHold();
    MicroSecondEntry();
    TimezoneWithoutColonEntry();
    NoTokenAt("T");
    NoTokenAt(".");
    Iso8601TZLayout(AllFormatTokens, FormatTokenMap);
  }

  /** Iso8601TZ is Iso8601 followed by "Z", and translates to Iso8601's
      translation followed by Go's numeric zone directive. */
  lemma Iso8601TZExtendsIso8601()
    ensures Iso8601TZ == Iso8601 + "Z"
    ensures TranslateFormat(Iso8601TZ) == TranslateFormat(Iso8601) + "Z0700"
  {
    TokensAreRuns();
    TimezoneWithoutColonEntry();
    ZoneSuffixLayout(Iso8601, AllFormatTokens, FormatTokenMap);
  }

  lemma CTimeVector()
    ensures TranslateFormat(CTime) == "Mon Jan 02 15:04:05 2006"
  {
    TokensAreRuns();
    CTimeEntriesHold();
    ClockEntriesHold();
    CTimeLayout(AllFormatTokens, FormatTokenMap);
  }
}
