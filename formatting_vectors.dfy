/** Translations of concrete layouts. Each layout is first translated with
    an arbitrary token list and table, from the facts about its pieces that
    the scan looks at; the library's own list and table are then shown to
    have those facts. Longer layouts are cut where two different characters
    meet and assembled with `TranslateConcat`. */
module FormattingVectors {
  import opened Formatting

  // ---------------------------------------------------------------------
  // Assembling translations

  /** Two pieces that meet at a change of character translate to the two
      translations side by side. */
  lemma Glue(a: string, b: string, ab: string, x: string, y: string, xy: string,
             toks: seq<FormatToken>, table: map<FormatToken, GoFormatToken>)
    requires AllRuns(toks)
    requires |a| > 0 && |b| > 0 && a[|a| - 1] != b[0] && ab == a + b
    requires Translate(a, toks, table) == Success(x) && Translate(b, toks, table) == Success(y)
    requires xy == x + y
    ensures Translate(ab, toks, table) == Success(xy)
  {
    TranslateConcat(a, b, toks, table);
  }

  /** Three pieces, each meeting the next at a change of character. */
  lemma Chain3(p0: string, p1: string, p2: string, layout: string,
               o0: string, o1: string, o2: string, out: string,
               toks: seq<FormatToken>, table: map<FormatToken, GoFormatToken>)
    requires AllRuns(toks)
    requires |p0| > 0 && |p1| > 0 && |p2| > 0
    requires p0[|p0| - 1] != p1[0] && p1[|p1| - 1] != p2[0]
    requires Translate(p0, toks, table) == Success(o0)
    requires Translate(p1, toks, table) == Success(o1)
    requires Translate(p2, toks, table) == Success(o2)
    requires layout == p0 + (p1 + p2) && out == o0 + (o1 + o2)
    ensures Translate(layout, toks, table) == Success(out)
  {
    Glue(p1, p2, p1 + p2, o1, o2, o1 + o2, toks, table);
    Glue(p0, p1 + p2, layout, o0, o1 + o2, out, toks, table);
  }

  /** Five pieces, each meeting the next at a change of character. */
  lemma Chain5(p0: string, p1: string, p2: string, p3: string, p4: string, layout: string,
               o0: string, o1: string, o2: string, o3: string, o4: string, out: string,
               toks: seq<FormatToken>, table: map<FormatToken, GoFormatToken>)
    requires AllRuns(toks)
    requires |p0| > 0 && |p1| > 0 && |p2| > 0 && |p3| > 0 && |p4| > 0
    requires p0[|p0| - 1] != p1[0] && p1[|p1| - 1] != p2[0]
    requires p2[|p2| - 1] != p3[0] && p3[|p3| - 1] != p4[0]
    requires Translate(p0, toks, table) == Success(o0)
    requires Translate(p1, toks, table) == Success(o1)
    requires Translate(p2, toks, table) == Success(o2)
    requires Translate(p3, toks, table) == Success(o3)
    requires Translate(p4, toks, table) == Success(o4)
    requires layout == p0 + (p1 + (p2 + (p3 + p4))) && out == o0 + (o1 + (o2 + (o3 + o4)))
    ensures Translate(layout, toks, table) == Success(out)
  {
    Chain3(p2, p3, p4, p2 + (p3 + p4), o2, o3, o4, o2 + (o3 + o4), toks, table);
    Glue(p1, p2 + (p3 + p4), p1 + (p2 + (p3 + p4)), o1, o2 + (o3 + o4), o1 + (o2 + (o3 + o4)), toks, table);
    Glue(p0, p1 + (p2 + (p3 + p4)), layout, o0, o1 + (o2 + (o3 + o4)), out, toks, table);
  }

  // ---------------------------------------------------------------------
  // Single pieces, for any token list and table

  /** Token `k` is the first match at the start of `t`, spans all of `t`
      and has the directive `go`. */
  predicate Entry(t: string, k: nat, go: string, toks: seq<FormatToken>, table: map<FormatToken, GoFormatToken>)
  {
    FirstMatch(t, toks) == Some(k) && toks[k].text == t && toks[k] in table && table[toks[k]].text == go
  }

  /** What the scan needs to know to translate "YYYY-MM-DD". */
  predicate DateEntries(toks: seq<FormatToken>, table: map<FormatToken, GoFormatToken>)
  {
    Entry("YYYY", 0, "2006", toks, table) && Entry("MM", 4, "01", toks, table) && Entry("DD", 7, "02", toks, table) &&
    FirstMatch("-", toks).None?
  }

  /** What the scan needs to know to translate "HH:mm:ss". */
  predicate ClockEntries(toks: seq<FormatToken>, table: map<FormatToken, GoFormatToken>)
  {
    Entry("HH", 11, "15", toks, table) && Entry("mm", 16, "04", toks, table) && Entry("ss", 18, "05", toks, table) &&
    FirstMatch(":", toks).None?
  }

  /** A layout that is exactly its first match becomes that token's
      directive. */
  lemma SingleToken(t: string, k: nat, go: string, toks: seq<FormatToken>, table: map<FormatToken, GoFormatToken>)
    requires Entry(t, k, go, toks, table)
    ensures Translate(t, toks, table) == Success(go)
  {
    NoRescan(t, toks, table, k, "");
    assert go + "" == go;
  }

  /** A one-character layout where no token starts is copied. */
  lemma SingleChar(c: char, toks: seq<FormatToken>, table: map<FormatToken, GoFormatToken>)
    requires FirstMatch([c], toks).None?
    ensures Translate([c], toks, table) == Success([c])
  {
    Passthrough([c], toks, table, []);
    assert [c] + "" == [c];
  }

  /** A run of one character shorter than every run token of that character
      is copied. */
  lemma {:induction false} UnmatchedRun(t: string, toks: seq<FormatToken>, table: map<FormatToken, GoFormatToken>)
    requires AllRuns(toks) && LeadingRun(t, |t|)
    requires forall j :: 0 <= j < |toks| ==> toks[j].text[0] != t[0] || |toks[j].text| > |t|
    ensures Translate(t, toks, table) == Success(t)
    decreases |t|
  {
    forall j | 0 <= j < |toks|
      ensures !Matches(t, toks[j])
    {
      RunMatches(t, toks[j], |t|);
    }
    NoFirstMatch(t, toks);
    Passthrough(t, toks, table, t[1..]);
    if |t| == 1 {
      assert [t[0]] + "" == t;
    } else {
      assert LeadingRun(t[1..], |t| - 1);
      UnmatchedRun(t[1..], toks, table);
      assert [t[0]] + t[1..] == t;
    }
  }

  // ---------------------------------------------------------------------
  // Layouts, for any token list and table

  /** "DDD": the token `k` covers "DD" and leaves "D" to the next step. */
  lemma TwoDayTokensLayout(k: nat, toks: seq<FormatToken>, table: map<FormatToken, GoFormatToken>)
    requires FirstMatch("DDD", toks) == Some(k) && |toks[k].text| == 2
    requires toks[k] in table && table[toks[k]].text == "02"
    requires Entry("D", 8, "2", toks, table)
    ensures Translate("DDD", toks, table) == Success("022")
  {
    SingleToken("D", 8, "2", toks, table);
    NoRescan("DDD", toks, table, k, "D");
    assert "02" + "2" == "022";
  }

  lemma NoEscapingLayout(toks: seq<FormatToken>, table: map<FormatToken, GoFormatToken>)
    requires AllRuns(toks)
    requires Entry("s", 19, "5", toks, table) && Entry("HH", 11, "15", toks, table)
    requires FirstMatch("t", toks).None? && FirstMatch("e", toks).None?
    ensures Translate("testHH", toks, table) == Success("te5t15")
  {
    SingleToken("s", 19, "5", toks, table);
    SingleToken("HH", 11, "15", toks, table);
    SingleChar('t', toks, table);
    SingleChar('e', toks, table);
    Chain5("t", "e", "s", "t", "HH", "testHH",
           "t", "e", "5", "t", "15", "te5t15", toks, table);
  }

  lemma DateLayout(toks: seq<FormatToken>, table: map<FormatToken, GoFormatToken>)
    requires AllRuns(toks)
    requires DateEntries(toks, table)
    ensures Translate("YYYY-MM-DD", toks, table) == Success("2006-01-02")
  {
    SingleToken("YYYY", 0, "2006", toks, table);
    SingleToken("MM", 4, "01", toks, table);
    SingleToken("DD", 7, "02", toks, table);
    SingleChar('-', toks, table);
    Chain5("YYYY", "-", "MM", "-", "DD", "YYYY-MM-DD",
           "2006", "-", "01", "-", "02", "2006-01-02", toks, table);
  }

  lemma ClockLayout(toks: seq<FormatToken>, table: map<FormatToken, GoFormatToken>)
    requires AllRuns(toks)
    requires ClockEntries(toks, table)
    ensures Translate("HH:mm:ss", toks, table) == Success("15:04:05")
  {
    SingleToken("HH", 11, "15", toks, table);
    SingleToken("mm", 16, "04", toks, table);
    SingleToken("ss", 18, "05", toks, table);
    SingleChar(':', toks, table);
    Chain5("HH", ":", "mm", ":", "ss", "HH:mm:ss",
           "15", ":", "04", ":", "05", "15:04:05", toks, table);
  }

  /** The date and the clock joined by a space. */
  lemma DateTimeLayout(toks: seq<FormatToken>, table: map<FormatToken, GoFormatToken>)
    requires AllRuns(toks)
    requires DateEntries(toks, table) && ClockEntries(toks, table) && FirstMatch(" ", toks).None?
    ensures Translate("YYYY-MM-DD HH:mm:ss", toks, table) == Success("2006-01-02 15:04:05")
  {
    var date, date' := "YYYY" + ("-" + ("MM" + ("-" + "DD"))), "2006" + ("-" + ("01" + ("-" + "02")));
    var clock, clock' := "HH" + (":" + ("mm" + (":" + "ss"))), "15" + (":" + ("04" + (":" + "05")));
    assert date + (" " + clock) == "YYYY-MM-DD HH:mm:ss";
    assert date' + (" " + clock') == "2006-01-02 15:04:05";
    SingleToken("YYYY", 0, "2006", toks, table);
    SingleToken("MM", 4, "01", toks, table);
    SingleToken("DD", 7, "02", toks, table);
    SingleToken("HH", 11, "15", toks, table);
    SingleToken("mm", 16, "04", toks, table);
    SingleToken("ss", 18, "05", toks, table);
    SingleChar('-', toks, table);
    SingleChar(':', toks, table);
    SingleChar(' ', toks, table);
    Chain5("YYYY", "-", "MM", "-", "DD", date, "2006", "-", "01", "-", "02", date', toks, table);
    Chain5("HH", ":", "mm", ":", "ss", clock, "15", ":", "04", ":", "05", clock', toks, table);
    Chain3(date, " ", clock, date + (" " + clock), date', " ", clock', date' + (" " + clock'), toks, table);
  }

  // ---------------------------------------------------------------------
  // Facts about the library's own token list and table

  /** Token `k` is the first listed token of the letter `t` repeats that is
      no longer than `t`. */
  lemma TokenEntry(t: string, k: nat, go: string)
    requires LeadingRun(t, |t|)
    requires k < |AllFormatTokens| && AllFormatTokens[k].text == t
    requires AllFormatTokens[k] in FormatTokenMap && FormatTokenMap[AllFormatTokens[k]].text == go
    requires forall j :: 0 <= j < k ==> AllFormatTokens[j].text[0] != t[0] || |AllFormatTokens[j].text| > |t|
    ensures Entry(t, k, go, AllFormatTokens, FormatTokenMap)
  {
    FirstTokenAt(t, |t|, k);
  }

  lemma YearFullEntry()
    ensures Entry("YYYY", 0, "2006", AllFormatTokens, FormatTokenMap)
  {
    TokenEntry("YYYY", 0, "2006");
  }

  lemma MonthFullEntry()
    ensures Entry("MMMM", 2, "January", AllFormatTokens, FormatTokenMap)
  {
    TokenEntry("MMMM", 2, "January");
  }

  lemma MonthAbbrEntry()
    ensures Entry("MMM", 3, "Jan", AllFormatTokens, FormatTokenMap)
  {
    TokenEntry("MMM", 3, "Jan");
  }

  lemma MonthZeroPaddedEntry()
    ensures Entry("MM", 4, "01", AllFormatTokens, FormatTokenMap)
  {
    TokenEntry("MM", 4, "01");
  }

  lemma MonthShortEntry()
    ensures Entry("M", 5, "1", AllFormatTokens, FormatTokenMap)
  {
    TokenEntry("M", 5, "1");
  }

  lemma DayOfYearZeroPaddedEntry()
    ensures Entry("DDDD", 6, "002", AllFormatTokens, FormatTokenMap)
  {
    TokenEntry("DDDD", 6, "002");
  }

  lemma DayOfMonthZeroPaddedEntry()
    ensures Entry("DD", 7, "02", AllFormatTokens, FormatTokenMap)
  {
    TokenEntry("DD", 7, "02");
  }

  lemma DayOfMonthShortEntry()
    ensures Entry("D", 8, "2", AllFormatTokens, FormatTokenMap)
  {
    TokenEntry("D", 8, "2");
  }

  lemma DayOfWeekFullNameEntry()
    ensures Entry("dddd", 9, "Monday", AllFormatTokens, FormatTokenMap)
  {
    TokenEntry("dddd", 9, "Monday");
  }

  lemma DayOfWeekAbbrEntry()
    ensures Entry("ddd", 10, "Mon", AllFormatTokens, FormatTokenMap)
  {
    TokenEntry("ddd", 10, "Mon");
  }

  lemma TwentyFourHourZeroPaddedEntry()
    ensures Entry("HH", 11, "15", AllFormatTokens, FormatTokenMap)
  {
    TokenEntry("HH", 11, "15");
  }

  lemma MinuteZeroPaddedEntry()
    ensures Entry("mm", 16, "04", AllFormatTokens, FormatTokenMap)
  {
    TokenEntry("mm", 16, "04");
  }

  lemma SecondZeroPaddedEntry()
    ensures Entry("ss", 18, "05", AllFormatTokens, FormatTokenMap)
  {
    TokenEntry("ss", 18, "05");
  }

  lemma SecondEntry()
    ensures Entry("s", 19, "5", AllFormatTokens, FormatTokenMap)
  {
    TokenEntry("s", 19, "5");
  }

  lemma MicroSecondEntry()
    ensures Entry("S", 20, "000000", AllFormatTokens, FormatTokenMap)
  {
    TokenEntry("S", 20, "000000");
  }

  lemma TimezoneFullNameEntry()
    ensures Entry("ZZZ", 21, "MST", AllFormatTokens, FormatTokenMap)
  {
    TokenEntry("ZZZ", 21, "MST");
  }

  lemma TimezoneWithoutColonEntry()
    ensures Entry("Z", 23, "Z0700", AllFormatTokens, FormatTokenMap)
  {
    TokenEntry("Z", 23, "Z0700");
  }

  lemma DateEntriesHold()
    ensures DateEntries(AllFormatTokens, FormatTokenMap)
  {
    YearFullEntry();
    MonthZeroPaddedEntry();
    DayOfMonthZeroPaddedEntry();
    NoTokenAt("-");
  }

  lemma ClockEntriesHold()
    ensures ClockEntries(AllFormatTokens, FormatTokenMap)
  {
    TwentyFourHourZeroPaddedEntry();
    MinuteZeroPaddedEntry();
    SecondZeroPaddedEntry();
    NoTokenAt(":");
  }

  // ---------------------------------------------------------------------
  // Vectors with the library's own token list and table

  lemma MonthFullVector()
    ensures TranslateFormat("MMMM") == "January"
  {
    MonthFullEntry();
    SingleToken("MMMM", 2, "January", AllFormatTokens, FormatTokenMap);
  }

  lemma MonthAbbrVector()
    ensures TranslateFormat("MMM") == "Jan"
  {
    MonthAbbrEntry();
    SingleToken("MMM", 3, "Jan", AllFormatTokens, FormatTokenMap);
  }

  lemma MonthZeroPaddedVector()
    ensures TranslateFormat("MM") == "01"
  {
    MonthZeroPaddedEntry();
    SingleToken("MM", 4, "01", AllFormatTokens, FormatTokenMap);
  }

  lemma MonthShortVector()
    ensures TranslateFormat("M") == "1"
  {
    MonthShortEntry();
    SingleToken("M", 5, "1", AllFormatTokens, FormatTokenMap);
  }

  lemma DayOfYearZeroPaddedVector()
    ensures TranslateFormat("DDDD") == "002"
  {
    DayOfYearZeroPaddedEntry();
    SingleToken("DDDD", 6, "002", AllFormatTokens, FormatTokenMap);
  }

  lemma DayOfWeekFullNameVector()
    ensures TranslateFormat("dddd") == "Monday"
  {
    DayOfWeekFullNameEntry();
    SingleToken("dddd", 9, "Monday", AllFormatTokens, FormatTokenMap);
  }

  lemma TimezoneFullNameVector()
    ensures TranslateFormat("ZZZ") == "MST"
  {
    TimezoneFullNameEntry();
    SingleToken("ZZZ", 21, "MST", AllFormatTokens, FormatTokenMap);
  }

  /** "DDD" is read as "DD" followed by "D". */
  lemma DayOfYearShortVector()
    ensures TranslateFormat("DDD") == "022"
  {
    FirstTokenAt("DDD", 3, 7);
    DayOfMonthShortEntry();
    TwoDayTokensLayout(7, AllFormatTokens, FormatTokenMap);
  }

  /** A run of a token letter shorter than every token of that letter is
      copied. */
  lemma UnmatchedRunVector(t: string)
    requires LeadingRun(t, |t|)
    requires forall j :: 0 <= j < |AllFormatTokens| ==> AllFormatTokens[j].text[0] != t[0] || |AllFormatTokens[j].text| > |t|
    ensures TranslateFormat(t) == t
  {
    TokensAreRuns();
    UnmatchedRun(t, AllFormatTokens, FormatTokenMap);
  }

  /** Runs of token letters that are shorter than every token of their
      letter. */
  const ShortRuns: seq<string> := ["Y", "H", "z", "d", "dd"]

  /** Each of `ShortRuns` stays as it is. */
  lemma ShortRunVectors()
    ensures forall i :: 0 <= i < |ShortRuns| ==> TranslateFormat(ShortRuns[i]) == ShortRuns[i]
  {
    forall i | 0 <= i < |ShortRuns|
      ensures TranslateFormat(ShortRuns[i]) == ShortRuns[i]
    {
      UnmatchedRunVector(ShortRuns[i]);
    }
  }

  /** The message for the unmapped token "123". */
  lemma FormatTokenIsNotMappedVector()
    ensures FormatTokenIsNotMapped("123") == "FormatToken: 123 is not mapped"
  {
  }

  /** Token letters inside words are replaced too: there is no escaping. */
  lemma NoEscapingVector()
    ensures TranslateFormat("testHH") == "te5t15"
  {
    TokensAreRuns();
    SecondEntry();
    TwentyFourHourZeroPaddedEntry();
    NoTokenAt("t");
    NoTokenAt("e");
    NoEscapingLayout(AllFormatTokens, FormatTokenMap);
  }

  lemma DateVector()
    ensures TranslateFormat("YYYY-MM-DD") == "2006-01-02"
  {
    TokensAreRuns();
    DateEntriesHold();
    DateLayout(AllFormatTokens, FormatTokenMap);
  }

  lemma ClockVector()
    ensures TranslateFormat("HH:mm:ss") == "15:04:05"
  {
    TokensAreRuns();
    ClockEntriesHold();
    ClockLayout(AllFormatTokens, FormatTokenMap);
  }

  lemma DateTimeLayoutVector()
    ensures TranslateFormat("YYYY-MM-DD HH:mm:ss") == "2006-01-02 15:04:05"
  {
    TokensAreRuns();
    DateEntriesHold();
    ClockEntriesHold();
    NoTokenAt(" ");
    DateTimeLayout(AllFormatTokens, FormatTokenMap);
  }
}
