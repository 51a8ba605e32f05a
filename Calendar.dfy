/** Calendar dates as .NET's DateOnly holds them: a proleptic Gregorian date in
    the years 1 to 9999, ordered by its day number (days since 0001-01-01). */
module Calendar {

  datatype Date = Date(year: int, month: int, day: int)

  const MinYear := 1
  const MaxYear := 9999

  predicate IsLeapYear(y: int)
  {
    y % 4 == 0 && (y % 100 != 0 || y % 400 == 0)
  }

  function DaysInYear(y: int): int
  {
    if IsLeapYear(y) then 366 else 365
  }

  function DaysInMonth(y: int, m: int): (n: int)
    requires 1 <= m <= 12
    ensures 28 <= n <= 31
    ensures n < 30 <==> m == 2
  {
    if m == 2 then (if IsLeapYear(y) then 29 else 28)
    else if m == 4 || m == 6 || m == 9 || m == 11 then 30
    else 31
  }

  predicate IsValid(d: Date)
  {
    MinYear <= d.year <= MaxYear && 1 <= d.month <= 12 && 1 <= d.day <= DaysInMonth(d.year, d.month)
  }

  /** A value of DateOnly; its default is 0001-01-01. */
  type DateOnly = d: Date | IsValid(d) witness Date(1, 1, 1)

  /** Days of year y that come before the first of month m. */
  function DaysBeforeMonth(y: int, m: int): nat
    requires 1 <= m <= 12
  {
    if m == 1 then 0 else DaysBeforeMonth(y, m - 1) + DaysInMonth(y, m - 1)
  }

  /** Days from 0001-01-01 to the first of January of year y: the lengths of
      the years before it. */
  function DaysBeforeYear(y: int): nat
    requires y >= 1
  {
    if y == 1 then 0 else DaysBeforeYear(y - 1) + DaysInYear(y - 1)
  }

  /** The closed formula DateTime uses for the days before year y: 365 a year
      plus one for each leap year before it. */
  function DaysBeforeYearFormula(y: int): int
    requires y >= 1
  {
    var n := y - 1;
    n * 365 + n / 4 - n / 100 + n / 400
  }

  /** The day number of a date: the number of days since 0001-01-01. */
  function DayNumber(d: DateOnly): int
  {
    DaysBeforeYear(d.year) + DaysBeforeMonth(d.year, d.month) + d.day - 1
  }

  /** DateOnly.CompareTo, field by field: negative, zero or positive as a
      comes before, is, or comes after b. DateOnly itself compares day numbers;
      CompareToMatchesDayNumber shows the two agree. */
  function CompareTo(a: DateOnly, b: DateOnly): (c: int)
    ensures c == 0 <==> a == b
    ensures c > 0 <==> Precedes(b, a)
    ensures c < 0 <==> Precedes(a, b)
  {
    if a.year != b.year then (if a.year < b.year then -1 else 1)
    else if a.month != b.month then (if a.month < b.month then -1 else 1)
    else if a.day != b.day then (if a.day < b.day then -1 else 1)
    else 0
  }

  /** Comparing field by field gives the sign of the difference of the day numbers. */
  lemma CompareToMatchesDayNumber(a: DateOnly, b: DateOnly)
    ensures CompareTo(a, b) == if DayNumber(a) < DayNumber(b) then -1 else if DayNumber(a) > DayNumber(b) then 1 else 0
  {
    DayNumberOrder(a, b);
    DayNumberOrder(b, a);
  }

  /** The calendar order: a comes strictly before b. */
  predicate Precedes(a: Date, b: Date)
  {
    a.year < b.year ||
    (a.year == b.year && (a.month < b.month || (a.month == b.month && a.day < b.day)))
  }

  /** DateTime.AddYears on the date part: the same month and day n years on,
      except that 29 February becomes 28 February in a year that is not a leap year. */
  function AddYears(d: DateOnly, n: int): (r: DateOnly)
    requires MinYear <= d.year + n <= MaxYear
    ensures r.year == d.year + n && r.month == d.month
    ensures r.day == if d.month == 2 && d.day == 29 && !IsLeapYear(d.year + n) then 28 else d.day
  {
    var y := d.year + n;
    var last := DaysInMonth(y, d.month);
    Date(y, d.month, if d.day > last then last else d.day)
  }

  /** The closed formula grows by the length of each year. */
  lemma FormulaStep(y: int)
    requires y >= 1
    ensures DaysBeforeYearFormula(y + 1) == DaysBeforeYearFormula(y) + DaysInYear(y)
  {
    var n := y - 1;
    assert y / 4 == n / 4 + (if y % 4 == 0 then 1 else 0);
    assert y / 100 == n / 100 + (if y % 100 == 0 then 1 else 0);
    assert y / 400 == n / 400 + (if y % 400 == 0 then 1 else 0);
  }

  /** The day count of the model agrees with DateTime's closed formula. */
  lemma {:induction false} DaysBeforeYearMatchesFormula(y: int)
    requires y >= 1
    ensures DaysBeforeYear(y) == DaysBeforeYearFormula(y)
  {
    if y > 1 {
      DaysBeforeYearMatchesFormula(y - 1);
      FormulaStep(y - 1);
    }
  }

  /** Each month of y ends within the year. */
  lemma {:induction false} MonthEndsWithinYear(y: int, m: int)
    requires 1 <= m <= 12
    ensures DaysBeforeMonth(y, m) + DaysInMonth(y, m) <= DaysInYear(y)
    decreases 12 - m
  {
    if m < 12 {
      MonthEndsWithinYear(y, m + 1);
    } else {
      assert DaysBeforeMonth(y, 12) == DaysBeforeMonth(y, 11) + 30;
      assert DaysBeforeMonth(y, 11) == DaysBeforeMonth(y, 10) + 31;
      assert DaysBeforeMonth(y, 10) == DaysBeforeMonth(y, 9) + 30;
      assert DaysBeforeMonth(y, 9) == DaysBeforeMonth(y, 8) + 31;
      assert DaysBeforeMonth(y, 8) == DaysBeforeMonth(y, 7) + 31;
      assert DaysBeforeMonth(y, 7) == DaysBeforeMonth(y, 6) + 30;
      assert DaysBeforeMonth(y, 6) == DaysBeforeMonth(y, 5) + 31;
      assert DaysBeforeMonth(y, 5) == DaysBeforeMonth(y, 4) + 30;
      assert DaysBeforeMonth(y, 4) == DaysBeforeMonth(y, 3) + 31;
      assert DaysBeforeMonth(y, 3) == DaysBeforeMonth(y, 2) + DaysInMonth(y, 2);
      assert DaysBeforeMonth(y, 2) == 31;
    }
  }

  /** A month that comes later in the year starts after an earlier one has ended. */
  lemma {:induction false} LaterMonthStartsLater(y: int, m: int, m': int)
    requires 1 <= m < m' <= 12
    ensures DaysBeforeMonth(y, m) + DaysInMonth(y, m) <= DaysBeforeMonth(y, m')
  {
    if m' > m + 1 {
      LaterMonthStartsLater(y, m, m' - 1);
    }
  }

  /** A later year starts after an earlier one has ended. */
  lemma {:induction false} LaterYearStartsLater(y: int, y': int)
    requires 1 <= y < y'
    ensures DaysBeforeYear(y) + DaysInYear(y) <= DaysBeforeYear(y')
    decreases y' - y
  {
    if y' > y + 1 {
      LaterYearStartsLater(y, y' - 1);
    }
  }

  /** Ordering by day number is the calendar order. */
  lemma DayNumberOrder(a: DateOnly, b: DateOnly)
    ensures DayNumber(a) < DayNumber(b) <==> Precedes(a, b)
    ensures DayNumber(a) == DayNumber(b) <==> a == b
  {
    if Precedes(a, b) {
      PrecedesHasSmallerDayNumber(a, b);
    } else if Precedes(b, a) {
      PrecedesHasSmallerDayNumber(b, a);
    }
  }

  lemma PrecedesHasSmallerDayNumber(a: DateOnly, b: DateOnly)
    requires Precedes(a, b)
    ensures DayNumber(a) < DayNumber(b)
  {
    MonthEndsWithinYear(a.year, a.month);
    if a.year < b.year {
      LaterYearStartsLater(a.year, b.year);
    } else if a.month < b.month {
      LaterMonthStartsLater(a.year, a.month, b.month);
    }
  }
}
