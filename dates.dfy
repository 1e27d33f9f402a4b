/** The date helpers of the reservation server: `parseDateValue`,
    `addDays` and `formatDateInputValue`, over a model of JavaScript's local
    `Date` that keeps only the calendar day. */
module Dates {
  import opened Options
  import opened JsText
  import opened Calendar

  /** A Date's time value, in whole days from 1970-01-01, or the Invalid
      Date whose time value is NaN. */
  datatype JsDate = At(day: int) | InvalidDate

  /** The largest distance from 1970-01-01 a Date can hold:
      8.64e15 milliseconds, that is 100,000,000 days. */
  const MaxDays: int := 100_000_000

  /** TimeClip: out-of-range time values become NaN. */
  function TimeClip(day: int): JsDate {
    if -MaxDays <= day <= MaxDays then At(day) else InvalidDate
  }

  /** MakeFullYear: the Date constructor reads the years 0 to 99 as 1900 to
      1999. */
  function MakeFullYear(y: int): int {
    if 0 <= y <= 99 then 1900 + y else y
  }

  /** `new Date(year, monthIndex, date)` at local midnight. */
  function NewDate(year: int, monthIndex: int, date: int): JsDate {
    TimeClip(MakeDay(MakeFullYear(year), monthIndex, date))
  }

  /** `d.setDate(date)`: keeps year and month and rolls the day over. */
  function SetDate(d: JsDate, date: int): JsDate {
    match d
    case InvalidDate => InvalidDate
    case At(n) =>
      var c := CivilOf(n);
      TimeClip(MakeDay(c.year, c.month - 1, date))
  }

  /** `d < e` on Dates: false whenever either time value is NaN. */
  predicate Before(d: JsDate, e: JsDate) {
    d.At? && e.At? && d.day < e.day
  }

  /** `d <= e` on Dates: false whenever either time value is NaN. */
  predicate NotAfter(d: JsDate, e: JsDate) {
    d.At? && e.At? && d.day <= e.day
  }

  /** `parseDateValue(value)`: `None` is `null`. An empty value is null; the
      value is split on `-` and each piece read with `Number`; anything but
      exactly three numbers is null; otherwise the result is
      `new Date(year, month - 1, day)`, which may roll over or be the
      Invalid Date. */
  function ParseDateValue(value: string): Option<JsDate> {
    if value == [] then None
    else
      var parts := Split(value, '-');
      if |parts| != 3 then None
      else
        match (ToNumber(parts[0]), ToNumber(parts[1]), ToNumber(parts[2]))
        case (Some(y), Some(m), Some(d)) => Some(NewDate(y, m - 1, d))
        case _ => None
  }

  /** `addDays(date, days)`: a copy at midnight of the same calendar day
      (through the Date constructor) whose day of the month is then moved on
      by `days`. */
  function AddDays(date: JsDate, days: int): JsDate {
    match date
    case InvalidDate => InvalidDate
    case At(n) =>
      var c := CivilOf(n);
      var next := NewDate(c.year, c.month - 1, c.day);
      match next
      case InvalidDate => InvalidDate
      case At(m) => SetDate(next, CivilOf(m).day + days)
  }

  /** `formatDateInputValue(date)`: year, then month and day padded to two
      digits, joined by `-`. NaN prints as "NaN". */
  function FormatDateInputValue(date: JsDate): string {
    match date
    case InvalidDate => "NaN-NaN-NaN"
    case At(n) =>
      var c := CivilOf(n);
      IntToString(c.year) + "-" + PadStart(NatToString(c.month), 2, '0')
        + "-" + PadStart(NatToString(c.day), 2, '0')
  }

  /** The text `parts[0]-parts[1]-parts[2]`. */
  function DateText(year: string, month: string, day: string): string {
    year + "-" + month + "-" + day
  }

  /** `parseDateValue` accepts exactly the texts made of three digit runs
      (each possibly empty, read as 0) separated by `-`. */
  lemma ParseDateValueAccepts(value: string)
    ensures ParseDateValue(value).Some? <==>
      exists y, m, d {:trigger DateText(y, m, d)} ::
        AllDigits(y) && AllDigits(m) && AllDigits(d) && value == DateText(y, m, d)
  {
    if ParseDateValue(value).Some? {
      var parts := Split(value, '-');
      JoinOfSplit(value, '-');
      assert parts == [parts[0]] + [parts[1], parts[2]];
      assert [parts[1], parts[2]] == [parts[1]] + [parts[2]];
      assert Join([parts[1], parts[2]], '-') == parts[1] + "-" + parts[2];
      assert value == parts[0] + "-" + (parts[1] + "-" + parts[2]);
      assert value == DateText(parts[0], parts[1], parts[2]);
    }
    if y, m, d :| AllDigits(y) && AllDigits(m) && AllDigits(d) && value == DateText(y, m, d) {
      ParseDateText(y, m, d);
    }
  }

  /** Three digit runs separated by `-` are read as
      `new Date(year, month - 1, day)`. */
  lemma ParseDateText(y: string, m: string, d: string)
    requires AllDigits(y) && AllDigits(m) && AllDigits(d)
    ensures ParseDateValue(DateText(y, m, d))
      == Some(NewDate(DecimalValue(y), DecimalValue(m) - 1, DecimalValue(d)))
  {
    DigitsHaveNoDash(y);
    DigitsHaveNoDash(m);
    DigitsHaveNoDash(d);
    SplitsIntoThree(y, m, d);
    assert ToNumber(y) == Some(DecimalValue(y));
    assert ToNumber(m) == Some(DecimalValue(m));
    assert ToNumber(d) == Some(DecimalValue(d));
  }

  /** Three runs without `-` split back into themselves. */
  lemma SplitsIntoThree(y: string, m: string, d: string)
    requires '-' !in y && '-' !in m && '-' !in d
    ensures Split(DateText(y, m, d), '-') == [y, m, d]
  {
    SplitOfJoin([y, m, d], '-');
    assert [y, m, d][1..] == [m, d] && [m, d][1..] == [d];
    assert Join([d], '-') == d;
    assert Join([m, d], '-') == m + "-" + d;
    assert Join([y, m, d], '-') == y + "-" + (m + "-" + d);
    assert DateText(y, m, d) == y + "-" + (m + "-" + d);
  }

  /** A digit string holds no `-`. */
  lemma DigitsHaveNoDash(s: string)
    requires AllDigits(s)
    ensures '-' !in s
  {
  }

  /** `addDays` moves a valid date by whole days, except for the Date
      constructor's reading of the years 0 to 99 as 1900 to 1999. */
  lemma AddDaysShifts(n: int, days: int)
    requires -MaxDays <= n <= MaxDays
    requires !(0 <= CivilOf(n).year <= 99)
    ensures AddDays(At(n), days) == TimeClip(n + days)
  {
    var c := CivilOf(n);
    MakeDayOfCivil(c, 0);
    assert MakeFullYear(c.year) == c.year;
    assert MakeDay(c.year, c.month - 1, c.day) == n;
    assert NewDate(c.year, c.month - 1, c.day) == At(n);
    MakeDayOfCivil(c, days);
    assert SetDate(At(n), c.day + days) == TimeClip(n + days);
  }

  /** `parseDateValue` reads what `formatDateInputValue` prints back as the
      same day, for every date from year 100 on. */
  lemma ParseOfFormat(n: int)
    requires -MaxDays <= n <= MaxDays
    requires CivilOf(n).year >= 100
    ensures ParseDateValue(FormatDateInputValue(At(n))) == Some(At(n))
  {
    var c := CivilOf(n);
    calc {
      ParseDateValue(FormatDateInputValue(At(n)));
    == { FormatText(n); }
      ParseDateValue(DateText(NatToString(c.year),
        PadStart(NatToString(c.month), 2, '0'), PadStart(NatToString(c.day), 2, '0')));
    == { ParsePrinted(c.year, c.month, c.day); }
      Some(NewDate(c.year, c.month - 1, c.day));
    == { ConstructorReadsCivil(c); }
      Some(At(n));
    }
  }

  /** The text printed for a year, month and day is read back as the
      constructor's date for them. */
  lemma ParsePrinted(year: nat, month: nat, day: nat)
    ensures ParseDateValue(DateText(NatToString(year),
      PadStart(NatToString(month), 2, '0'), PadStart(NatToString(day), 2, '0')))
      == Some(NewDate(year, month - 1, day))
  {
    PaddedDigits(month);
    PaddedDigits(day);
    ReadDigits(NatToString(year), PadStart(NatToString(month), 2, '0'),
      PadStart(NatToString(day), 2, '0'), year, month, day);
  }

  /** A number printed and padded to two places with `0` reads back as itself. */
  lemma PaddedDigits(k: nat)
    ensures AllDigits(PadStart(NatToString(k), 2, '0'))
    ensures DecimalValue(PadStart(NatToString(k), 2, '0')) == k
  {
    ZeroPaddingKeepsValue(NatToString(k), 2);
  }

  /** Digit runs of the given values are read as the constructor's date for
      those values. */
  lemma ReadDigits(y: string, m: string, d: string, year: int, month: int, day: int)
    requires AllDigits(y) && AllDigits(m) && AllDigits(d)
    requires DecimalValue(y) == year && DecimalValue(m) == month && DecimalValue(d) == day
    ensures ParseDateValue(DateText(y, m, d)) == Some(NewDate(year, month - 1, day))
  {
    ParseDateText(y, m, d);
  }

  /** What `formatDateInputValue` prints for a year from 0 on: the year,
      then the month and the day as exactly two digits each. */
  lemma FormatIsDateText(n: int)
    requires CivilOf(n).year >= 0
    ensures FormatDateInputValue(At(n)) == DateText(NatToString(CivilOf(n).year),
      PadStart(NatToString(CivilOf(n).month), 2, '0'), PadStart(NatToString(CivilOf(n).day), 2, '0'))
    ensures |PadStart(NatToString(CivilOf(n).month), 2, '0')| == 2
    ensures |PadStart(NatToString(CivilOf(n).day), 2, '0')| == 2
  {
    var c := CivilOf(n);
    FormatText(n);
    ShortFields(c);
    TwoPlaces(c.month);
    TwoPlaces(c.day);
  }

  /** A month and a day of a calendar date are below 100. */
  lemma ShortFields(c: CivilDate)
    requires ValidCivil(c)
    ensures c.month < 100 && c.day < 100
  {
    assert DaysInMonth(c.year, c.month) <= 31;
  }

  /** A month or day number is padded to exactly two places. */
  lemma TwoPlaces(k: nat)
    requires k < 100
    ensures |PadStart(NatToString(k), 2, '0')| == 2
  {
    ShortNatToString(k);
  }

  /** The fields `formatDateInputValue` joins for a year from 0 on. */
  lemma FormatText(n: int)
    requires CivilOf(n).year >= 0
    ensures FormatDateInputValue(At(n)) == DateText(NatToString(CivilOf(n).year),
      PadStart(NatToString(CivilOf(n).month), 2, '0'), PadStart(NatToString(CivilOf(n).day), 2, '0'))
  {
  }

  /** The constructor reads a two-digit year as a year of the 1900s:
      `new Date(24, 0, 1)` is 1 January 1924. */
  lemma TwoDigitYears(year: int, monthIndex: int, date: int)
    requires 0 <= year <= 99
    ensures NewDate(year, monthIndex, date) == NewDate(1900 + year, monthIndex, date)
  {
  }

  /** Every Date that the constructor or `addDays` builds holds a time value
      within ±100,000,000 days. */
  lemma DatesInRange(year: int, monthIndex: int, date: int, d: JsDate, days: int)
    ensures var r := NewDate(year, monthIndex, date); r.At? ==> -MaxDays <= r.day <= MaxDays
    ensures var r := AddDays(d, days); r.At? ==> -MaxDays <= r.day <= MaxDays
  {
  }

  /** `addDays` past the range gives the Invalid Date, and adding days to the
      Invalid Date keeps it invalid. */
  lemma AddDaysPastRange(n: int, days: int, more: int)
    requires -MaxDays <= n <= MaxDays && !(0 <= CivilOf(n).year <= 99)
    requires !(-MaxDays <= n + days <= MaxDays)
    ensures AddDays(At(n), days) == InvalidDate
    ensures AddDays(AddDays(At(n), days), more) == InvalidDate
  {
    AddDaysShifts(n, days);
  }

  /** The Date constructor builds a calendar date from year 100 on as that
      date. */
  lemma ConstructorReadsCivil(c: CivilDate)
    requires ValidCivil(c) && c.year >= 100 && -MaxDays <= DayOf(c) <= MaxDays
    ensures NewDate(c.year, c.month - 1, c.day) == At(DayOf(c))
  {
    calc {
      NewDate(c.year, c.month - 1, c.day);
    ==
      TimeClip(MakeDay(MakeFullYear(c.year), c.month - 1, c.day));
    == { assert MakeFullYear(c.year) == c.year; }
      TimeClip(MakeDay(c.year, c.month - 1, c.day + 0));
    == { MakeDayOfCivil(c, 0); }
      TimeClip(DayOf(c));
    }
  }

  /** A date from the year 300000 on lies beyond the range of Date: the
      constructor gives the Invalid Date whatever the month and day. */
  lemma FarYearIsInvalid(year: int, month: int, day: int)
    requires year >= 300000 && month >= 0 && day >= 0
    ensures NewDate(year, month - 1, day) == InvalidDate
  {
    var ym := year + (month - 1) / 12;
    assert ym >= year - 1;
    YearsAdvance(299999, ym);
    assert DayFromYear(299999) > MaxDays;
    assert MakeDay(year, month - 1, day) >= DayFromYear(ym) - 1;
  }

  /** The constructor rolls a day past the end of its month over into the
      next month: day `DaysInMonth + k` of month `m` is day `k` of month
      `m + 1`. */
  lemma DayRollsOver(y: int, m: int, k: int)
    requires y >= 100 && 1 <= m <= 11
    ensures NewDate(y, m - 1, DaysInMonth(y, m) + k) == NewDate(y, m, k)
  {
    assert MakeFullYear(y) == y;
    MakeDayMonthEnd(y, m, k);
  }

  /** A day past 31 December rolls over into January of the next year. */
  lemma DecemberRollsOver(y: int, k: int)
    requires y >= 100
    ensures NewDate(y, 11, 31 + k) == NewDate(y + 1, 0, k)
  {
    MonthLength(y, 12);
    YearLength(y);
  }

  /** A month index past December or before January rolls over into the
      next or the previous year. */
  lemma MonthRollsOver(y: int, d: int)
    requires y >= 101
    ensures NewDate(y, 12, d) == NewDate(y + 1, 0, d)
    ensures NewDate(y, -1, d) == NewDate(y - 1, 11, d)
  {
  }

  /** `2024-02-30` is read as 1 March 2024. */
  lemma LeapFebruaryRollsOver()
    ensures ParseDateValue("2024-02-30") == ParseDateValue("2024-03-01")
  {
    LiteralDigits();
    calc {
      ParseDateValue("2024-02-30");
    == { assert "2024-02-30" == DateText("2024", "02", "30"); }
      ParseDateValue(DateText("2024", "02", "30"));
    == { ParseDateText("2024", "02", "30"); }
      Some(NewDate(2024, 1, 30));
    == { assert DaysInMonth(2024, 2) == 29; DayRollsOver(2024, 2, 1); }
      Some(NewDate(2024, 2, 1));
    == { ParseDateText("2024", "03", "01"); }
      ParseDateValue(DateText("2024", "03", "01"));
    == { assert "2024-03-01" == DateText("2024", "03", "01"); }
      ParseDateValue("2024-03-01");
    }
  }

  /** The values of the digit runs in the example above. */
  lemma LiteralDigits()
    ensures DecimalValue("2024") == 2024
    ensures DecimalValue("02") == 2 && DecimalValue("30") == 30
    ensures DecimalValue("03") == 3 && DecimalValue("01") == 1
  {
    assert "2024"[..3] == "202" && "202"[..2] == "20" && "20"[..1] == "2" && "2"[..0] == [];
    assert "02"[..1] == "0" && "30"[..1] == "3" && "03"[..1] == "0" && "01"[..1] == "0";
    assert "0"[..0] == [] && "3"[..0] == [];
  }
}
