/** The proleptic Gregorian calendar as ECMAScript counts it: a day is an
    integer, day 0 being 1970-01-01 (DayFromYear, YearFromTime, MonthFromTime
    and DateFromTime of ECMA-262, section 21.4.1). */
module Calendar {

  predicate IsLeapYear(y: int) {
    y % 4 == 0 && (y % 100 != 0 || y % 400 == 0)
  }

  function DaysInYear(y: int): int {
    if IsLeapYear(y) then 366 else 365
  }

  function DaysInMonth(y: int, m: int): int
    requires 1 <= m <= 12
  {
    if m == 2 then (if IsLeapYear(y) then 29 else 28)
    else if m == 4 || m == 6 || m == 9 || m == 11 then 30
    else 31
  }

  /** Days of year `y` before the first of month `m`; month 13 stands for
      the first day of the next year. */
  function DaysBeforeMonth(y: int, m: int): int
    requires 1 <= m <= 13
  {
    (if IsLeapYear(y) && m > 2 then 1 else 0) +
    (if m == 1 then 0 else if m == 2 then 31 else if m == 3 then 59
     else if m == 4 then 90 else if m == 5 then 120 else if m == 6 then 151
     else if m == 7 then 181 else if m == 8 then 212 else if m == 9 then 243
     else if m == 10 then 273 else if m == 11 then 304 else if m == 12 then 334
     else 365)
  }

  /** The day of January 1st of year `y` (DayFromYear). */
  function DayFromYear(y: int): int {
    365 * (y - 1970) + (y - 1969) / 4 - (y - 1901) / 100 + (y - 1601) / 400
  }

  /** A year is as long as the distance to the next one's start. */
  lemma YearLength(y: int)
    ensures DayFromYear(y + 1) == DayFromYear(y) + DaysInYear(y)
  {
    StepBy4(y);
    StepBy100(y);
    StepBy400(y);
    LeapDivisors(y);
    assert DayFromYear(y + 1) - DayFromYear(y) == 365
      + ((y - 1968) / 4 - (y - 1969) / 4)
      - ((y - 1900) / 100 - (y - 1901) / 100)
      + ((y - 1600) / 400 - (y - 1601) / 400);
  }

  /** A multiple of 400 is one of 100, and a multiple of 100 one of 4. */
  lemma LeapDivisors(y: int)
    ensures y % 400 == 0 ==> y % 100 == 0
    ensures y % 100 == 0 ==> y % 4 == 0
  {
    var q := y / 400;
    assert y == 400 * q + y % 400;
    var p := y / 100;
    assert y == 100 * p + y % 100;
  }

  /** The leap-day terms of DayFromYear grow by one exactly at the years
      the Gregorian rule names. */
  lemma StepBy4(y: int)
    ensures (y - 1968) / 4 - (y - 1969) / 4 == if y % 4 == 0 then 1 else 0
  {
    var q := (y - 1969) / 4;
    assert y - 1969 == 4 * q + (y - 1969) % 4;
  }

  lemma StepBy100(y: int)
    ensures (y - 1900) / 100 - (y - 1901) / 100 == if y % 100 == 0 then 1 else 0
  {
    var q := (y - 1901) / 100;
    assert y - 1901 == 100 * q + (y - 1901) % 100;
  }

  lemma StepBy400(y: int)
    ensures (y - 1600) / 400 - (y - 1601) / 400 == if y % 400 == 0 then 1 else 0
  {
    var q := (y - 1601) / 400;
    assert y - 1601 == 400 * q + (y - 1601) % 400;
  }

  lemma MonthLength(y: int, m: int)
    requires 1 <= m <= 12
    ensures DaysBeforeMonth(y, m + 1) == DaysBeforeMonth(y, m) + DaysInMonth(y, m)
    ensures DaysBeforeMonth(y, 1) == 0 && DaysBeforeMonth(y, 13) == DaysInYear(y)
  {
  }

  /** Years start later the later they are, by at least 365 days a year. */
  lemma {:induction false} YearsAdvance(a: int, b: int)
    requires a <= b
    ensures DayFromYear(a) + 365 * (b - a) <= DayFromYear(b)
    decreases b - a
  {
    if a < b {
      YearsAdvance(a, b - 1);
      YearLength(b - 1);
    }
  }

  /** Every 400 years hold 146097 days, and year 1970 starts day 0. */
  lemma Cycles(q: int)
    ensures DayFromYear(1970 + 400 * q) == 146097 * q
  {
    assert (400 * q + 1) / 4 == 100 * q;
    assert (400 * q + 69) / 100 == 4 * q;
    assert (400 * q + 369) / 400 == q;
  }

  /** The year that holds day `n`, searched upwards from a year that starts
      no later than `n`. */
  function FindYear(n: int, y: int): (r: int)
    requires DayFromYear(y) <= n
    ensures y <= r && DayFromYear(r) <= n < DayFromYear(r + 1)
    decreases n - DayFromYear(y)
  {
    YearLength(y);
    if n < DayFromYear(y + 1) then y else FindYear(n, y + 1)
  }

  /** YearFromTime: the year that holds day `n`. */
  function YearFromDay(n: int): (y: int)
    ensures DayFromYear(y) <= n < DayFromYear(y + 1)
  {
    var q := n / 146097;
    Cycles(q);
    FindYear(n, 1970 + 400 * q)
  }

  /** The month of year `y` that holds its `r`-th day (counting from 0),
      searched upwards from month `m`. */
  function FindMonth(y: int, r: int, m: int): (month: int)
    requires 1 <= m <= 12 && DaysBeforeMonth(y, m) <= r < DaysInYear(y)
    ensures m <= month <= 12
    ensures DaysBeforeMonth(y, month) <= r < DaysBeforeMonth(y, month + 1)
    decreases 12 - m
  {
    MonthLength(y, m);
    if r < DaysBeforeMonth(y, m + 1) then m else FindMonth(y, r, m + 1)
  }

  /** A calendar date: year, month 1..12 and day of the month. */
  datatype CivilDate = CivilDate(year: int, month: int, day: int)

  predicate ValidCivil(c: CivilDate) {
    1 <= c.month <= 12 && 1 <= c.day <= DaysInMonth(c.year, c.month)
  }

  /** The day number of a calendar date. */
  function DayOf(c: CivilDate): int
    requires 1 <= c.month <= 12
  {
    DayFromYear(c.year) + DaysBeforeMonth(c.year, c.month) + c.day - 1
  }

  /** The calendar date of day `n`; the two are inverse (see CivilOfDayOf). */
  function CivilOf(n: int): (c: CivilDate)
    ensures ValidCivil(c) && DayOf(c) == n
    ensures DayFromYear(c.year) <= n < DayFromYear(c.year + 1)
  {
    var y := YearFromDay(n);
    YearLength(y);
    MonthLength(y, 1);
    var m := FindMonth(y, n - DayFromYear(y), 1);
    MonthLength(y, m);
    CivilDate(y, m, n - DayFromYear(y) - DaysBeforeMonth(y, m) + 1)
  }

  /** A later day is never in an earlier year. */
  lemma YearMonotone(n: int, n': int)
    requires n <= n'
    ensures CivilOf(n).year <= CivilOf(n').year
  {
    var c, c' := CivilOf(n), CivilOf(n');
    YearsOrdered(n, n', c.year, c'.year);
  }

  /** The years holding two ordered days are ordered alike. */
  lemma YearsOrdered(n: int, n': int, y: int, y': int)
    requires n <= n'
    requires DayFromYear(y) <= n && n' < DayFromYear(y' + 1)
    ensures y <= y'
  {
    if y' < y {
      YearsAdvance(y' + 1, y);
    }
  }

  /** Later months of a year start later. */
  lemma MonthsAdvance(y: int, a: int, b: int)
    requires 1 <= a < b <= 13
    ensures DaysBeforeMonth(y, a) < DaysBeforeMonth(y, b)
  {
  }

  /** The day number of a valid date lies within its year. */
  lemma DayWithinYear(c: CivilDate)
    requires ValidCivil(c)
    ensures DayFromYear(c.year) <= DayOf(c) < DayFromYear(c.year + 1)
  {
    MonthLength(c.year, c.month);
    if c.month < 12 {
      MonthsAdvance(c.year, c.month + 1, 13);
    }
    YearLength(c.year);
  }

  /** The day number of a valid date lies within its month. */
  lemma DayWithinMonth(c: CivilDate)
    requires ValidCivil(c)
    ensures DayOf(c) < DayFromYear(c.year) + DaysBeforeMonth(c.year, c.month + 1)
  {
    MonthLength(c.year, c.month);
  }

  /** Later calendar dates, in year-month-day order, have larger day numbers. */
  lemma DayOfMonotone(c: CivilDate, c': CivilDate)
    requires ValidCivil(c) && ValidCivil(c')
    requires c.year < c'.year
      || (c.year == c'.year && c.month < c'.month)
      || (c.year == c'.year && c.month == c'.month && c.day < c'.day)
    ensures DayOf(c) < DayOf(c')
  {
    if c.year < c'.year {
      DayWithinYear(c);
      DayWithinYear(c');
      YearsAdvance(c.year + 1, c'.year);
    } else if c.month < c'.month {
      DayWithinMonth(c);
      if c.month + 1 < c'.month {
        MonthsAdvance(c.year, c.month + 1, c'.month);
      }
    }
  }

  /** Distinct valid dates have distinct day numbers. */
  lemma DayOfInjective(c: CivilDate, c': CivilDate)
    requires ValidCivil(c) && ValidCivil(c') && DayOf(c) == DayOf(c')
    ensures c == c'
  {
    if c.year < c'.year || (c.year == c'.year && c.month < c'.month)
      || (c.year == c'.year && c.month == c'.month && c.day < c'.day)
    {
      DayOfMonotone(c, c');
    } else if c'.year < c.year || (c.year == c'.year && c'.month < c.month)
      || (c.year == c'.year && c.month == c'.month && c'.day < c.day)
    {
      DayOfMonotone(c', c);
    }
  }

  /** Calendar dates and day numbers are in one-to-one correspondence. */
  lemma CivilOfDayOf(c: CivilDate)
    requires ValidCivil(c)
    ensures CivilOf(DayOf(c)) == c
  {
    DayOfInjective(c, CivilOf(DayOf(c)));
  }

  /** MakeDay: the day of `date` counted from the first of month
      `monthIndex` (0-based) of `year`, where months beyond December and
      days beyond the month's end roll over, as ECMAScript's Date does. */
  function MakeDay(year: int, monthIndex: int, date: int): int {
    var ym := year + monthIndex / 12;
    var mn := monthIndex % 12;
    DayOf(CivilDate(ym, mn + 1, 1)) + date - 1
  }

  /** MakeDay rolls a day past the end of month `m` over into month
      `m + 1`. */
  lemma MakeDayMonthEnd(y: int, m: int, k: int)
    requires 1 <= m <= 11
    ensures MakeDay(y, m - 1, DaysInMonth(y, m) + k) == MakeDay(y, m, k)
  {
    MonthLength(y, m);
    assert (m - 1) / 12 == 0 && (m - 1) % 12 == m - 1;
    assert m / 12 == 0 && m % 12 == m;
  }

  /** MakeDay reads a well-formed date back as its own day. */
  lemma MakeDayOfCivil(c: CivilDate, k: int)
    requires 1 <= c.month <= 12
    ensures MakeDay(c.year, c.month - 1, c.day + k) == DayOf(c) + k
  {
    assert (c.month - 1) / 12 == 0 && (c.month - 1) % 12 == c.month - 1;
    assert DayOf(CivilDate(c.year, c.month, 1)) == DayOf(c) - c.day + 1;
  }
}
