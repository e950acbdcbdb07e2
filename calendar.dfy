/**
 * The part of Python's datetime.date that the reminder logic uses: the
 * proleptic Gregorian calendar on years 1..9999, construction with range
 * checks, comparison, and the day count of a difference of two dates.
 */
module Calendar {
  import opened Wrappers

  /** datetime.MINYEAR and datetime.MAXYEAR. */
  const MinYear := 1
  const MaxYear := 9999

  datatype Date = Date(year: int, month: int, day: int)

  /** Why datetime.date(...) raised ValueError. */
  datatype DateError = YearOutOfRange | MonthOutOfRange | DayOutOfRange

  /** Gregorian rule: every fourth year, except centuries not divisible by 400. */
  predicate IsLeapYear(y: int) {
    y % 4 == 0 && (y % 100 != 0 || y % 400 == 0)
  }

  function DaysInMonth(y: int, m: int): (n: int)
    requires 1 <= m <= 12
    ensures 28 <= n <= 31
  {
    if m == 2 then (if IsLeapYear(y) then 29 else 28)
    else if m == 4 || m == 6 || m == 9 || m == 11 then 30
    else 31
  }

  function DaysInYear(y: int): int {
    if IsLeapYear(y) then 366 else 365
  }

  /** The dates datetime.date accepts. */
  predicate IsValid(d: Date) {
    MinYear <= d.year <= MaxYear && 1 <= d.month <= 12 && 1 <= d.day <= DaysInMonth(d.year, d.month)
  }

  /** datetime.date(y, m, d): the date, or the ValueError it raises (year checked first, then month, then day). */
  function MakeDate(y: int, m: int, d: int): (r: Result<Date, DateError>)
    ensures r.Success? <==> IsValid(Date(y, m, d))
    ensures r.Success? ==> r.value == Date(y, m, d)
  {
    if !(MinYear <= y <= MaxYear) then Failure(YearOutOfRange)
    else if !(1 <= m <= 12) then Failure(MonthOutOfRange)
    else if !(1 <= d <= DaysInMonth(y, m)) then Failure(DayOutOfRange)
    else Success(Date(y, m, d))
  }

  /** Python's date ordering `a < b`: by year, then month, then day. */
  predicate Before(a: Date, b: Date) {
    a.year < b.year || (a.year == b.year && (a.month < b.month || (a.month == b.month && a.day < b.day)))
  }

  /** Days in the years before `y` (the days-from-civil count of 1 January of `y`, less one). */
  function DaysBeforeYear(y: int): int
    requires y >= 1
  {
    var p := y - 1;
    p * 365 + p / 4 - p / 100 + p / 400
  }

  /** Days in the months of year `y` before month `m`. */
  function DaysBeforeMonth(y: int, m: int): (n: int)
    requires 1 <= m <= 12
    ensures 28 * (m - 1) <= n <= 31 * (m - 1)
  {
    if m == 1 then 0 else DaysBeforeMonth(y, m - 1) + DaysInMonth(y, m - 1)
  }

  /** date.toordinal(): day number 1 is 0001-01-01, consecutive days have consecutive numbers. */
  function Ordinal(d: Date): int
    requires IsValid(d)
  {
    DaysBeforeYear(d.year) + DaysBeforeMonth(d.year, d.month) + d.day
  }

  /** `(later - earlier).days` for two dates. */
  function DaysBetween(later: Date, earlier: Date): int
    requires IsValid(later) && IsValid(earlier)
  {
    Ordinal(later) - Ordinal(earlier)
  }

  // ---------------------------------------------------------------- lemmas

  /** Moving to the next year adds the length of the current one. */
  lemma DaysBeforeYearStep(y: int)
    requires y >= 1
    ensures DaysBeforeYear(y + 1) == DaysBeforeYear(y) + DaysInYear(y)
  {
    var p := y - 1;
    assert (p + 1) / 4 == p / 4 + (if y % 4 == 0 then 1 else 0);
    assert (p + 1) / 100 == p / 100 + (if y % 100 == 0 then 1 else 0);
    assert (p + 1) / 400 == p / 400 + (if y % 400 == 0 then 1 else 0);
  }

  /** A later year starts after the whole of an earlier one. */
  lemma {:induction false} DaysBeforeYearGrows(y1: int, y2: int)
    requires 1 <= y1 < y2
    ensures DaysBeforeYear(y1) + DaysInYear(y1) <= DaysBeforeYear(y2)
    decreases y2 - y1
  {
    DaysBeforeYearStep(y1);
    if y1 + 1 < y2 {
      DaysBeforeYearGrows(y1 + 1, y2);
    }
  }

  /** A later month of the same year starts after the whole of an earlier one. */
  lemma {:induction false} DaysBeforeMonthGrows(y: int, m1: int, m2: int)
    requires 1 <= m1 < m2 <= 12
    ensures DaysBeforeMonth(y, m1) + DaysInMonth(y, m1) <= DaysBeforeMonth(y, m2)
    decreases m2 - m1
  {
    if m1 + 1 < m2 {
      DaysBeforeMonthGrows(y, m1 + 1, m2);
    }
  }

  /** The twelve months fill the year exactly. */
  lemma MonthsFillYear(y: int)
    ensures DaysBeforeMonth(y, 12) + DaysInMonth(y, 12) == DaysInYear(y)
  {
    var feb := DaysInMonth(y, 2);
    assert DaysBeforeMonth(y, 2) == 31;
    assert DaysBeforeMonth(y, 3) == 31 + feb;
    assert DaysBeforeMonth(y, 4) == 62 + feb;
    assert DaysBeforeMonth(y, 5) == 92 + feb;
    assert DaysBeforeMonth(y, 6) == 123 + feb;
    assert DaysBeforeMonth(y, 7) == 153 + feb;
    assert DaysBeforeMonth(y, 8) == 184 + feb;
    assert DaysBeforeMonth(y, 9) == 215 + feb;
    assert DaysBeforeMonth(y, 10) == 245 + feb;
    assert DaysBeforeMonth(y, 11) == 276 + feb;
    assert DaysBeforeMonth(y, 12) == 306 + feb;
  }

  /** Every valid date lies within its year. */
  lemma DayOfYearBound(d: Date)
    requires IsValid(d)
    ensures DaysBeforeMonth(d.year, d.month) + d.day <= DaysInYear(d.year)
  {
    MonthsFillYear(d.year);
    if d.month < 12 {
      DaysBeforeMonthGrows(d.year, d.month, 12);
    }
  }

  /** Ordinals grow with the calendar order. */
  lemma OrdinalGrows(a: Date, b: Date)
    requires IsValid(a) && IsValid(b) && Before(a, b)
    ensures Ordinal(a) < Ordinal(b)
  {
    if a.year < b.year {
      DayOfYearBound(a);
      DaysBeforeYearGrows(a.year, b.year);
    } else if a.month < b.month {
      DaysBeforeMonthGrows(a.year, a.month, b.month);
    }
  }

  /**
   * Comparing dates and comparing their ordinals agree, and the ordinal
   * identifies the date: `a < b` iff a.toordinal() < b.toordinal().
   */
  lemma OrdinalOrder(a: Date, b: Date)
    requires IsValid(a) && IsValid(b)
    ensures Before(a, b) <==> Ordinal(a) < Ordinal(b)
    ensures a == b <==> Ordinal(a) == Ordinal(b)
  {
    if Before(a, b) {
      OrdinalGrows(a, b);
    } else if Before(b, a) {
      OrdinalGrows(b, a);
    }
  }

  /** Month starts in two years differ only by the leap day, and only after February. */
  lemma {:induction false} DaysBeforeMonthAcrossYears(y1: int, y2: int, m: int)
    requires 1 <= m <= 12
    ensures DaysBeforeMonth(y2, m) - DaysBeforeMonth(y1, m)
         == (if m > 2 then (if IsLeapYear(y2) then 1 else 0) - (if IsLeapYear(y1) then 1 else 0) else 0)
    decreases m
  {
    if m > 1 {
      DaysBeforeMonthAcrossYears(y1, y2, m - 1);
    }
  }

  /**
   * The same month a year later is at most 366 days on, and 365 plus the
   * leap day that lies in between.
   */
  lemma OneYearLater(y: int, m: int, d1: int, d2: int)
    requires MinYear <= y && y + 1 <= MaxYear && 1 <= m <= 12
    requires IsValid(Date(y, m, d1)) && IsValid(Date(y + 1, m, d2))
    ensures Ordinal(Date(y + 1, m, d2)) - Ordinal(Date(y, m, d1))
         == 365 + (if (m <= 2 && IsLeapYear(y)) || (m > 2 && IsLeapYear(y + 1)) then 1 else 0) + d2 - d1
  {
    DaysBeforeYearStep(y);
    DaysBeforeMonthAcrossYears(y, y + 1, m);
  }
}
