/** The format-token translator of formatting.go: the symbolic token
    vocabulary, its table of Go reference-layout equivalents, and the scan
    that rewrites a symbolic layout into a Go layout. */
module Formatting {

  /** A symbolic token such as "YYYY" (a Go `FormatToken`). */
  datatype FormatToken = FormatToken(text: string)

  /** A directive of Go's reference layout such as "2006". */
  datatype GoFormatToken = GoFormatToken(text: string)

  datatype Option<T> = None | Some(value: T)

  /** The outcome of a translation: the translated layout, or the message
      of the panic raised for a matched token that has no table entry. */
  datatype Result<T> = Success(value: T) | Failure(error: string)

  // The symbolic vocabulary.
  const YearFull := FormatToken("YYYY")
  const YearShort := FormatToken("YY")
  const MonthFull := FormatToken("MMMM")
  const MonthAbbr := FormatToken("MMM")
  const MonthZeroPadded := FormatToken("MM")
  const MonthShort := FormatToken("M")
  const DayOfYearZeroPadded := FormatToken("DDDD")
  const DayOfMonthZeroPadded := FormatToken("DD")
  const DayOfMonthShort := FormatToken("D")
  const DayOfWeekFullName := FormatToken("dddd")
  const DayOfWeekAbbr := FormatToken("ddd")
  const TwentyFourHourZeroPadded := FormatToken("HH")
  const TwelveHourZeroPadded := FormatToken("hh")
  const TwelveHour := FormatToken("h")
  const AMPMUpper := FormatToken("A")
  const AMPMLower := FormatToken("a")
  const MinuteZeroPadded := FormatToken("mm")
  const Minute := FormatToken("m")
  const SecondZeroPadded := FormatToken("ss")
  const Second := FormatToken("s")
  const MicroSecond := FormatToken("S")
  const TimezoneFullName := FormatToken("ZZZ")
  const TimezoneWithColon := FormatToken("zz")
  const TimezoneWithoutColon := FormatToken("Z")

  // Go's reference-layout directives.
  const GoLongMonth := GoFormatToken("January")
  const GoMonth := GoFormatToken("Jan")
  const GoNumMonth := GoFormatToken("1")
  const GoZeroMonth := GoFormatToken("01")
  const GoLongWeekDay := GoFormatToken("Monday")
  const GoWeekDay := GoFormatToken("Mon")
  const GoDay := GoFormatToken("2")
  const GoZeroDay := GoFormatToken("02")
  const GoZeroYearDay := GoFormatToken("002")
  const GoHour := GoFormatToken("15")
  const GoHour12 := GoFormatToken("3")
  const GoZeroHour12 := GoFormatToken("03")
  const GoMinute := GoFormatToken("4")
  const GoZeroMinute := GoFormatToken("04")
  const GoSecond := GoFormatToken("5")
  const GoZeroSecond := GoFormatToken("05")
  const GoLongYear := GoFormatToken("2006")
  const GoYear := GoFormatToken("06")
  const GoPM := GoFormatToken("PM")
  const Gopm := GoFormatToken("pm")
  const GoTZ := GoFormatToken("MST")
  const GoMillisecond := GoFormatToken("000")
  const GoMicrosecond := GoFormatToken("000000")
  const GoNanoSecond := GoFormatToken("000000000")
  const GoISO8601TZ := GoFormatToken("Z0700")
  const GoISO8601SecondsTZ := GoFormatToken("Z070000")
  const GoISO8601ShortTZ := GoFormatToken("Z07")
  const GoISO8601ColonTZ := GoFormatToken("Z07:00")
  const GoISO8601ColonSecondsTZ := GoFormatToken("Z07:00:00")
  const GoNumTZ := GoFormatToken("-0700")
  const GoNumSecondsTz := GoFormatToken("-070000")
  const GoNumShortTZ := GoFormatToken("-07")
  const GoNumColonTZ := GoFormatToken("-07:00")
  const GoNumColonSecondsTZ := GoFormatToken("-07:00:00")

  /** The translation table from symbolic tokens to Go directives. */
  const FormatTokenMap: map<FormatToken, GoFormatToken> := map[
    YearFull := GoLongYear,
    YearShort := GoYear,
    MonthFull := GoLongMonth,
    MonthAbbr := GoMonth,
    MonthZeroPadded := GoZeroMonth,
    MonthShort := GoNumMonth,
    DayOfYearZeroPadded := GoZeroYearDay,
    DayOfMonthZeroPadded := GoZeroDay,
    DayOfMonthShort := GoDay,
    DayOfWeekFullName := GoLongWeekDay,
    DayOfWeekAbbr := GoWeekDay,
    TwentyFourHourZeroPadded := GoHour,
    TwelveHourZeroPadded := GoZeroHour12,
    TwelveHour := GoHour12,
    AMPMUpper := GoPM,
    AMPMLower := Gopm,
    MinuteZeroPadded := GoZeroMinute,
    Minute := GoMinute,
    SecondZeroPadded := GoZeroSecond,
    Second := GoSecond,
    MicroSecond := GoMicrosecond,
    TimezoneFullName := GoTZ,
    TimezoneWithColon := GoISO8601ColonTZ,
    TimezoneWithoutColon := GoISO8601TZ
  ]

  /** The vocabulary in matching order: wherever one token is a prefix of
      another, the longer one is listed first. */
  const AllFormatTokens: seq<FormatToken> := [
    YearFull,
    YearShort,
    MonthFull,
    MonthAbbr,
    MonthZeroPadded,
    MonthShort,
    DayOfYearZeroPadded,
    DayOfMonthZeroPadded,
    DayOfMonthShort,
    DayOfWeekFullName,
    DayOfWeekAbbr,
    TwentyFourHourZeroPadded,
    TwelveHourZeroPadded,
    TwelveHour,
    AMPMUpper,
    AMPMLower,
    MinuteZeroPadded,
    Minute,
    SecondZeroPadded,
    Second,
    MicroSecond,
    TimezoneFullName,
    TimezoneWithColon,
    TimezoneWithoutColon
  ]

  /** The letters a symbolic token can start with. */
  const TokenLetters: set<char> := {'Y', 'M', 'D', 'd', 'H', 'h', 'A', 'a', 'm', 's', 'S', 'Z', 'z'}

  /** The list and the table name the same 24 tokens. */
  lemma TableInSync()
    ensures |AllFormatTokens| == 24
    ensures forall i :: 0 <= i < |AllFormatTokens| ==> AllFormatTokens[i] in FormatTokenMap
    ensures forall t :: t in FormatTokenMap ==> t in AllFormatTokens
  {
  }

  // ---------------------------------------------------------------------
  // Token texts and the alternation pattern

  /** The texts of the tokens, in order. */
  function Texts(fts: seq<FormatToken>): (r: seq<string>)
    ensures |r| == |fts|
    ensures forall i :: 0 <= i < |fts| ==> r[i] == fts[i].text
  {
    if |fts| == 0 then [] else [fts[0].text] + Texts(fts[1..])
  }

  /** The tokens as plain strings, appended one by one. */
  method ToStringSlice(fts: seq<FormatToken>) returns (ss: seq<string>)
    ensures |ss| == |fts|
    ensures forall i :: 0 <= i < |fts| ==> ss[i] == fts[i].text
    ensures ss == Texts(fts)
  {
    ss := [];
    for i := 0 to |fts|
      invariant |ss| == i
      invariant forall k :: 0 <= k < i ==> ss[k] == fts[k].text
    {
      ss := ss + [fts[i].text];
    }
  }

  /** The parts separated by `sep`, as Go's strings.Join. */
  function Join(parts: seq<string>, sep: string): string
  {
    if |parts| == 0 then ""
    else if |parts| == 1 then parts[0]
    else parts[0] + sep + Join(parts[1..], sep)
  }

  /** The fields of `s` between occurrences of `sep`; the inverse of Join. */
  function Split(s: string, sep: char): (r: seq<string>)
    ensures |r| >= 1
  {
    if |s| == 0 then [""]
    else
      var rest := Split(s[1..], sep);
      if s[0] == sep then [""] + rest else [[s[0]] + rest[0]] + rest[1..]
  }

  lemma {:induction false} SplitWithoutSeparator(s: string, sep: char)
    requires sep !in s
    ensures Split(s, sep) == [s]
  {
    if |s| > 0 {
      SplitWithoutSeparator(s[1..], sep);
      assert [s[0]] + s[1..] == s;
    }
  }

  lemma {:induction false} SplitAfterField(a: string, sep: char, b: string)
    requires sep !in a
    ensures Split(a + [sep] + b, sep) == [a] + Split(b, sep)
  {
    if |a| == 0 {
      assert a + [sep] + b == [sep] + b;
      assert ([sep] + b)[1..] == b;
    } else {
      SplitAfterField(a[1..], sep, b);
      assert (a + [sep] + b)[1..] == a[1..] + [sep] + b;
      assert [a[0]] + a[1..] == a;
    }
  }

  /** Splitting a join at a separator none of the parts contains gives the
      parts back. */
  lemma {:induction false} SplitJoin(parts: seq<string>, sep: char)
    requires |parts| >= 1
    requires forall i :: 0 <= i < |parts| ==> sep !in parts[i]
    ensures Split(Join(parts, [sep]), sep) == parts
  {
    if |parts| == 1 {
      SplitWithoutSeparator(parts[0], sep);
    } else {
      SplitJoin(parts[1..], sep);
      SplitAfterField(parts[0], sep, Join(parts[1..], [sep]));
      assert [parts[0]] + parts[1..] == parts;
    }
  }

  /** The alternation of the tokens of `toks`, in list order; the bar never
      occurs inside a run of a letter, so the alternatives can be read back. */
  function Alternation(toks: seq<FormatToken>): (r: string)
    requires |toks| >= 1 && AllRuns(toks)
    requires forall j :: 0 <= j < |toks| ==> toks[j].text[0] != '|'
    ensures Split(r, '|') == Texts(toks)
  {
    var parts := Texts(toks);
    assert forall i :: 0 <= i < |parts| ==> '|' !in parts[i];
    SplitJoin(parts, '|');
    Join(parts, "|")
  }

  /** The alternation of all tokens, in list order. */
  function FormatTokenRegex(): (r: string)
    ensures Split(r, '|') == Texts(AllFormatTokens)
  {
    TokensAreRuns();
    Alternation(AllFormatTokens)
  }

  // ---------------------------------------------------------------------
  // Matching

  /** The token occurs at the start of `s`. An empty token never matches. */
  predicate Matches(s: string, t: FormatToken)
  {
    0 < |t.text| <= |s| && t.text[0] == s[0] && s[..|t.text|] == t.text
  }

  /** The index of the first listed token that occurs at the start of `s`:
      the alternative a leftmost-first regular expression picks. */
  function FirstMatch(s: string, toks: seq<FormatToken>): (r: Option<nat>)
    ensures r.Some? ==> r.value < |toks| && 0 < |toks[r.value].text| <= |s|
  {
    FirstMatchFrom(s, toks, 0)
  }

  /** The first token at index `i` or later that occurs at the start of `s`. */
  function FirstMatchFrom(s: string, toks: seq<FormatToken>, i: nat): (r: Option<nat>)
    ensures r.Some? ==> i <= r.value < |toks| && 0 < |toks[r.value].text| <= |s|
    decreases |toks| - i
  {
    if i >= |toks| then None
    else if Matches(s, toks[i]) then Some(i)
    else FirstMatchFrom(s, toks, i + 1)
  }

  lemma {:induction false} FirstMatchFromSpec(s: string, toks: seq<FormatToken>, i: nat)
    ensures var r := FirstMatchFrom(s, toks, i);
      (r.Some? ==> Matches(s, toks[r.value]) && forall j :: i <= j < r.value ==> !Matches(s, toks[j])) &&
      (r.None? ==> forall j :: i <= j < |toks| ==> !Matches(s, toks[j]))
    decreases |toks| - i
  {
    if i < |toks| && !Matches(s, toks[i]) {
      FirstMatchFromSpec(s, toks, i + 1);
    }
  }

  /** The first match is a match, no earlier token matches, and there is
      none only when no token matches. */
  lemma FirstMatchSpec(s: string, toks: seq<FormatToken>)
    ensures var r := FirstMatch(s, toks);
      (r.Some? ==> Matches(s, toks[r.value]) && forall j :: 0 <= j < r.value ==> !Matches(s, toks[j])) &&
      (r.None? ==> forall j :: 0 <= j < |toks| ==> !Matches(s, toks[j]))
  {
    FirstMatchFromSpec(s, toks, 0);
  }

  /** The first match is pinned down by which tokens match. */
  lemma FirstMatchAt(s: string, toks: seq<FormatToken>, k: nat)
    requires k < |toks| && Matches(s, toks[k])
    requires forall j :: 0 <= j < k ==> !Matches(s, toks[j])
    ensures FirstMatch(s, toks) == Some(k)
  {
    FirstMatchSpec(s, toks);
  }

  /** Without a matching token there is no first match. */
  lemma NoFirstMatch(s: string, toks: seq<FormatToken>)
    requires forall j :: 0 <= j < |toks| ==> !Matches(s, toks[j])
    ensures FirstMatch(s, toks).None?
  {
    FirstMatchSpec(s, toks);
  }

  /** `t` repeats a single letter. */
  predicate IsRun(t: string)
  {
    |t| > 0 && forall m :: 0 <= m < |t| ==> t[m] == t[0]
  }

  /** Every token of `toks` repeats a single character. */
  predicate AllRuns(toks: seq<FormatToken>)
  {
    forall j :: 0 <= j < |toks| ==> IsRun(toks[j].text)
  }

  /** Every token repeats one of the token letters. */
  lemma TokensAreRuns()
    ensures AllRuns(AllFormatTokens)
    ensures forall j :: 0 <= j < |AllFormatTokens| ==> AllFormatTokens[j].text[0] in TokenLetters
  {
  }

  /** `s` starts with exactly `n` copies of its first character. */
  predicate LeadingRun(s: string, n: nat)
  {
    0 < n <= |s| && (forall m :: 0 <= m < n ==> s[m] == s[0]) && (n == |s| || s[n] != s[0])
  }

  /** A single-letter token matches exactly when its letter starts `s` and
      it is no longer than the run of that letter. */
  lemma RunMatches(s: string, t: FormatToken, n: nat)
    requires IsRun(t.text) && LeadingRun(s, n)
    ensures Matches(s, t) <==> t.text[0] == s[0] && |t.text| <= n
  {
    if t.text[0] == s[0] && |t.text| <= n {
      assert s[..|t.text|] == t.text;
    }
  }

  /** The length of the run of `s[0]` that starts `s`. */
  function RunLength(s: string): (n: nat)
    requires |s| > 0
    ensures LeadingRun(s, n)
    decreases |s|
  {
    if |s| == 1 || s[1] != s[0] then 1
    else
      var m := RunLength(s[1..]);
      assert forall i :: 0 <= i < m ==> s[1..][i] == s[1];
      1 + m
  }

  lemma LeadingRunUnique(s: string, n: nat, m: nat)
    requires LeadingRun(s, n) && LeadingRun(s, m)
    ensures n == m
  {
  }

  /** Appending text that starts with a different character than `a` ends
      with changes neither the leading run nor which run tokens match. */
  lemma SameMatches(a: string, b: string, toks: seq<FormatToken>)
    requires AllRuns(toks) && |a| > 0
    requires |b| == 0 || a[|a| - 1] != b[0]
    ensures forall j :: 0 <= j < |toks| ==> (Matches(a + b, toks[j]) <==> Matches(a, toks[j]))
    ensures RunLength(a + b) == RunLength(a)
  {
    var n := RunLength(a);
    assert LeadingRun(a + b, n) by {
      if n == |a| && |b| > 0 {
        assert (a + b)[n] == b[0];
        assert a[|a| - 1] == a[0];
      }
    }
    forall j | 0 <= j < |toks|
      ensures Matches(a + b, toks[j]) <==> Matches(a, toks[j])
    {
      RunMatches(a, toks[j], n);
      RunMatches(a + b, toks[j], n);
    }
    LeadingRunUnique(a + b, n, RunLength(a + b));
  }

  lemma {:induction false} FirstMatchFromSame(s1: string, s2: string, toks: seq<FormatToken>, i: nat)
    requires forall j :: 0 <= j < |toks| ==> (Matches(s1, toks[j]) <==> Matches(s2, toks[j]))
    ensures FirstMatchFrom(s1, toks, i) == FirstMatchFrom(s2, toks, i)
    decreases |toks| - i
  {
    if i < |toks| {
      FirstMatchFromSame(s1, s2, toks, i + 1);
    }
  }

  /** Prefixing `a` to `b` at a change of character keeps the first match,
      which lies within `a`. */
  lemma SameFirstMatch(a: string, b: string, toks: seq<FormatToken>)
    requires AllRuns(toks) && |a| > 0
    requires |b| == 0 || a[|a| - 1] != b[0]
    ensures FirstMatch(a + b, toks) == FirstMatch(a, toks)
    ensures FirstMatch(a, toks).Some? ==> |toks[FirstMatch(a, toks).value].text| <= |a|
  {
    SameMatches(a, b, toks);
    FirstMatchFromSame(a + b, a, toks, 0);
  }

  /** No listed token is a proper prefix of a token listed after it. */
  predicate LongestFirst(toks: seq<FormatToken>)
  {
    forall i, j :: 0 <= i < j < |toks| && |toks[i].text| < |toks[j].text| ==>
      toks[j].text[..|toks[i].text|] != toks[i].text
  }

  /** Of two tokens of the same letter, the one listed first is longer. */
  lemma LongerFirstPerLetter()
    ensures forall i, j :: 0 <= i < j < |AllFormatTokens| && AllFormatTokens[i].text[0] == AllFormatTokens[j].text[0] ==>
      |AllFormatTokens[i].text| > |AllFormatTokens[j].text|
  {
  }

  /** Run tokens listed longer first within each letter never have an
      earlier token as a proper prefix of a later one. */
  lemma RunsLongestFirst(toks: seq<FormatToken>)
    requires AllRuns(toks)
    requires forall i, j :: 0 <= i < j < |toks| && toks[i].text[0] == toks[j].text[0] ==> |toks[i].text| > |toks[j].text|
    ensures LongestFirst(toks)
  {
    forall i, j | 0 <= i < j < |toks| && |toks[i].text| < |toks[j].text|
      ensures toks[j].text[..|toks[i].text|] != toks[i].text
    {
      assert toks[j].text[..|toks[i].text|][0] == toks[j].text[0];
    }
  }

  lemma AllFormatTokensLongestFirst()
    ensures LongestFirst(AllFormatTokens)
  {
    TokensAreRuns();
    LongerFirstPerLetter();
    RunsLongestFirst(AllFormatTokens);
  }

  /** With the longer tokens listed first, the first match is a longest one. */
  lemma FirstMatchIsLongest(s: string, toks: seq<FormatToken>)
    requires LongestFirst(toks)
    requires FirstMatch(s, toks).Some?
    ensures forall j :: 0 <= j < |toks| && Matches(s, toks[j]) ==>
      |toks[j].text| <= |toks[FirstMatch(s, toks).value].text|
  {
    FirstMatchSpec(s, toks);
    var i := FirstMatch(s, toks).value;
    forall j | 0 <= j < |toks| && Matches(s, toks[j])
      ensures |toks[j].text| <= |toks[i].text|
    {
    }
  }

  /** The token translateFormat picks at the start of `s` is a longest
      token there. */
  lemma LongestMatch(s: string)
    requires FirstMatch(s, AllFormatTokens).Some?
    ensures forall j :: 0 <= j < |AllFormatTokens| && Matches(s, AllFormatTokens[j]) ==>
      |AllFormatTokens[j].text| <= |AllFormatTokens[FirstMatch(s, AllFormatTokens).value].text|
  {
    AllFormatTokensLongestFirst();
    FirstMatchIsLongest(s, AllFormatTokens);
  }

  // ---------------------------------------------------------------------
  // Translation

  /** The message of the error raised for an unmapped token. */
  function FormatTokenIsNotMapped(formatToken: string): (r: string)
    ensures |r| == |formatToken| + 27
    ensures r[..13] == "FormatToken: "
    ensures r[13..|r| - 14] == formatToken
    ensures r[|r| - 14..] == " is not mapped"
  {
    "FormatToken: " + formatToken + " is not mapped"
  }

  /** Scans `format` left to right: where a token of `toks` starts, the first
      listed one is replaced by its entry in `table` and the scan resumes
      after it in the input; elsewhere one character is copied. A matched
      token missing from `table` stops the scan with its error. */
  function Translate(format: string, toks: seq<FormatToken>, table: map<FormatToken, GoFormatToken>): Result<string>
    decreases |format|
  {
    if |format| == 0 then Success("")
    else match FirstMatch(format, toks)
      case None =>
        (match Translate(format[1..], toks, table)
          case Success(rest) => Success([format[0]] + rest)
          case Failure(e) => Failure(e))
      case Some(i) =>
        if toks[i] !in table then Failure(FormatTokenIsNotMapped(toks[i].text))
        else match Translate(format[|toks[i].text|..], toks, table)
          case Success(rest) => Success(table[toks[i]].text + rest)
          case Failure(e) => Failure(e)
  }

  /** A table with an entry for every listed token never fails. */
  lemma {:induction false} TranslateTotal(format: string, toks: seq<FormatToken>, table: map<FormatToken, GoFormatToken>)
    requires forall i :: 0 <= i < |toks| ==> toks[i] in table
    ensures Translate(format, toks, table).Success?
    decreases |format|
  {
    if |format| > 0 {
      match FirstMatch(format, toks)
      case None =>
        TranslateTotal(format[1..], toks, table);
      case Some(i) =>
        TranslateTotal(format[|toks[i].text|..], toks, table);
    }
  }

  /** A failure names a listed token that the table lacks. */
  lemma {:induction false} TranslateFailure(format: string, toks: seq<FormatToken>, table: map<FormatToken, GoFormatToken>)
    requires Translate(format, toks, table).Failure?
    ensures exists i :: (0 <= i < |toks| && toks[i] !in table &&
      Translate(format, toks, table).error == FormatTokenIsNotMapped(toks[i].text))
    decreases |format|
  {
    match FirstMatch(format, toks)
    case None =>
      TranslateFailure(format[1..], toks, table);
    case Some(i) =>
      if toks[i] in table {
        TranslateFailure(format[|toks[i].text|..], toks, table);
      }
  }

  /** translateFormat: the scan with the library's own table, which never
      fails. */
  function TranslateFormat(format: string): (r: string)
    ensures Translate(format, AllFormatTokens, FormatTokenMap) == Success(r)
  {
    TableInSync();
    TranslateTotal(format, AllFormatTokens, FormatTokenMap);
    Translate(format, AllFormatTokens, FormatTokenMap).value
  }

  /** The outcome of translating two layouts one after the other. */
  function Then(r1: Result<string>, r2: Result<string>): Result<string>
  {
    if r1.Failure? then r1 else if r2.Failure? then r2 else Success(r1.value + r2.value)
  }

  /** `r` with `p` put in front of its text. */
  function Prefixed(p: string, r: Result<string>): Result<string>
  {
    if r.Failure? then r else Success(p + r.value)
  }

  lemma ThenPrefix(p: string, r1: Result<string>, r2: Result<string>)
    ensures Then(Prefixed(p, r1), r2) == Prefixed(p, Then(r1, r2))
  {
    if r1.Success? && r2.Success? {
      assert (p + r1.value) + r2.value == p + (r1.value + r2.value);
    }
  }

  /** Where a token starts, its Go directive is emitted as is and the scan
      resumes in the input right after the token: the inserted text is
      never rescanned. */
  lemma NoRescan(format: string, toks: seq<FormatToken>, table: map<FormatToken, GoFormatToken>, k: nat, rest: string)
    requires FirstMatch(format, toks) == Some(k) && toks[k] in table
    requires rest == format[|toks[k].text|..]
    ensures Translate(format, toks, table) == Prefixed(table[toks[k]].text, Translate(rest, toks, table))
  {
  }

  /** Where no token starts, the character is copied. */
  lemma Passthrough(format: string, toks: seq<FormatToken>, table: map<FormatToken, GoFormatToken>, rest: string)
    requires |format| > 0 && FirstMatch(format, toks).None?
    requires rest == format[1..]
    ensures Translate(format, toks, table) == Prefixed([format[0]], Translate(rest, toks, table))
  {
  }

  /** No token starts at a character that is not a token letter. */
  lemma NoTokenAt(format: string)
    requires |format| > 0 && format[0] !in TokenLetters
    ensures FirstMatch(format, AllFormatTokens).None?
  {
    TokensAreRuns();
    NoFirstMatch(format, AllFormatTokens);
  }

  /** The token picked where `format` starts with a run of `n` copies of a
      letter is the first listed token of that letter no longer than `n`. */
  lemma FirstTokenAt(format: string, n: nat, k: nat)
    requires LeadingRun(format, n)
    requires k < |AllFormatTokens| && AllFormatTokens[k].text[0] == format[0] && |AllFormatTokens[k].text| <= n
    requires forall j :: 0 <= j < k ==> AllFormatTokens[j].text[0] != format[0] || |AllFormatTokens[j].text| > n
    ensures FirstMatch(format, AllFormatTokens) == Some(k)
  {
    TokensAreRuns();
    forall j | 0 <= j <= k
      ensures Matches(format, AllFormatTokens[j]) <==> j == k
    {
      RunMatches(format, AllFormatTokens[j], n);
    }
    FirstMatchAt(format, AllFormatTokens, k);
  }

  /** No token starts where a letter's run is shorter than every token of
      that letter. */
  lemma NoTokenInRun(format: string, n: nat)
    requires LeadingRun(format, n)
    requires forall j :: 0 <= j < |AllFormatTokens| ==> AllFormatTokens[j].text[0] != format[0] || |AllFormatTokens[j].text| > n
    ensures FirstMatch(format, AllFormatTokens).None?
  {
    TokensAreRuns();
    forall j | 0 <= j < |AllFormatTokens|
      ensures !Matches(format, AllFormatTokens[j])
    {
      RunMatches(format, AllFormatTokens[j], n);
    }
    NoFirstMatch(format, AllFormatTokens);
  }

  /** A layout without token letters translates to itself. */
  lemma {:induction false} LiteralsUnchanged(format: string)
    requires forall k :: 0 <= k < |format| ==> format[k] !in TokenLetters
    ensures TranslateFormat(format) == format
    decreases |format|
  {
    if |format| > 0 {
      NoTokenAt(format);
      LiteralsUnchanged(format[1..]);
      assert [format[0]] + format[1..] == format;
    }
  }

  /** Cutting a layout where two different characters meet cuts its
      translation at the same place: no token spans such a cut. */
  lemma {:induction false} TranslateConcat(a: string, b: string, toks: seq<FormatToken>, table: map<FormatToken, GoFormatToken>)
    requires AllRuns(toks)
    requires |a| == 0 || |b| == 0 || a[|a| - 1] != b[0]
    ensures Translate(a + b, toks, table) == Then(Translate(a, toks, table), Translate(b, toks, table))
    decreases |a|
  {
    if |a| == 0 {
      assert a + b == b;
      var r := Translate(b, toks, table);
      if r.Success? { assert "" + r.value == r.value; }
    } else {
      SameFirstMatch(a, b, toks);
      var L := match FirstMatch(a, toks) case None => 1 case Some(k) => |toks[k].text|;
      assert (a + b)[L..] == a[L..] + b;
      assert |a[L..]| == 0 || a[L..][|a[L..]| - 1] == a[|a| - 1];
      TranslateConcat(a[L..], b, toks, table);
      match FirstMatch(a, toks)
      case None =>
        Passthrough(a + b, toks, table, a[1..] + b);
        Passthrough(a, toks, table, a[1..]);
        ThenPrefix([a[0]], Translate(a[1..], toks, table), Translate(b, toks, table));
      case Some(k) =>
        if toks[k] in table {
          NoRescan(a + b, toks, table, k, a[L..] + b);
          NoRescan(a, toks, table, k, a[L..]);
          ThenPrefix(table[toks[k]].text, Translate(a[L..], toks, table), Translate(b, toks, table));
        }
    }
  }

  /** A token of the library's list followed by text that does not extend
      its run becomes its Go directive followed by the translation of that
      text: the directive itself is never rescanned, and the token is read
      whole however it is continued. */
  lemma TokenThenRest(k: nat, s: string)
    requires k < |AllFormatTokens|
    requires |s| == 0 || s[0] != AllFormatTokens[k].text[0]
    ensures AllFormatTokens[k] in FormatTokenMap
    ensures TranslateFormat(AllFormatTokens[k].text + s) == FormatTokenMap[AllFormatTokens[k]].text + TranslateFormat(s)
  {
    var t := AllFormatTokens[k].text;
    TokensAreRuns();
    LongerFirstPerLetter();
    TableInSync();
    assert LeadingRun(t, |t|);
    FirstTokenAt(t, |t|, k);
    NoRescan(t, AllFormatTokens, FormatTokenMap, k, "");
    assert FormatTokenMap[AllFormatTokens[k]].text + "" == FormatTokenMap[AllFormatTokens[k]].text;
    TranslateConcat(t, s, AllFormatTokens, FormatTokenMap);
  }
}
