/**
 * The part of Python's `datetime.date` the contact book uses: proleptic-Gregorian
 * dates of years 1..9999, `toordinal`, `weekday`, comparison, adding a day,
 * `replace(year=...)` and `strftime("%d.%m.%Y")`.
 */
module Calendar {
  import opened Wrappers
  import opened Text

  datatype Date = Date(year: int, month: int, day: int)

  /** `datetime.MAXYEAR`; `datetime.MINYEAR` is 1. */
  const MaxYear := 9999

  /** The last day `datetime.date` can represent. */
  const LastDate := Date(MaxYear, 12, 31)

  predicate IsLeap(y: int) {
    y % 4 == 0 && (y % 100 != 0 || y % 400 == 0)
  }

  function DaysInMonth(y: int, m: int): (n: int)
    requires 1 <= m <= 12
    ensures 28 <= n <= 31
  {
    if m == 2 then (if IsLeap(y) then 29 else 28)
    else if m == 4 || m == 6 || m == 9 || m == 11 then 30
    else 31
  }

  predicate ValidDate(d: Date) {
    1 <= d.year <= MaxYear && 1 <= d.month <= 12 && 1 <= d.day <= DaysInMonth(d.year, d.month)
  }

  function YearLength(y: int): int {
    if IsLeap(y) then 366 else 365
  }

  /** Days in the years before `y`, counted from 1 January of year 1. */
  function DaysBeforeYear(y: int): int
    requires y >= 1
  {
    var n := y - 1;
    365 * n + n / 4 - n / 100 + n / 400
  }

  /** Days in year `y` before the first of month `m`; `m == 13` gives the whole year. */
  function DaysBeforeMonth(y: int, m: int): int
    requires 1 <= m <= 13
  {
    [0, 31, 59, 90, 120, 151, 181, 212, 243, 273, 304, 334, 365][m - 1]
      + (if m > 2 && IsLeap(y) then 1 else 0)
  }

  /** `date.toordinal()`: 1 January of year 1 is day 1. */
  function DayNumber(d: Date): int
    requires ValidDate(d)
  {
    DaysBeforeYear(d.year) + DaysBeforeMonth(d.year, d.month) + d.day
  }

  /** `date.weekday()`: Monday is 0 and Sunday is 6. */
  function Weekday(d: Date): (w: int)
    requires ValidDate(d)
    ensures 0 <= w < 7
  {
    (DayNumber(d) + 6) % 7
  }

  /** `a < b` on dates: by year, then month, then day. */
  predicate Before(a: Date, b: Date) {
    a.year < b.year || (a.year == b.year && (a.month < b.month || (a.month == b.month && a.day < b.day)))
  }

  /** A year adds 366 days when it is a leap year and 365 otherwise. */
  lemma YearStep(y: int)
    requires y >= 1
    ensures DaysBeforeYear(y + 1) == DaysBeforeYear(y) + YearLength(y)
  {
    var n := y - 1;
    assert (n + 1) / 4 == n / 4 + (if y % 4 == 0 then 1 else 0);
    assert (n + 1) / 100 == n / 100 + (if y % 100 == 0 then 1 else 0);
    assert (n + 1) / 400 == n / 400 + (if y % 400 == 0 then 1 else 0);
    CenturiesDivide(y);
  }

  /** Every fourth century is a century, and every century a fourth year. */
  lemma CenturiesDivide(y: int)
    ensures y % 400 == 0 ==> y % 100 == 0
    ensures y % 100 == 0 ==> y % 4 == 0
  {
    if y % 100 == 0 {
      var k := 25 * (y / 100);
      assert y == 4 * k;
      assert y / 4 == k;
    }
    if y % 400 == 0 {
      var k := 4 * (y / 400);
      assert y == 100 * k;
      assert y / 100 == k;
    }
  }

  /** Later years start later: at least 365 days per year in between. */
  lemma {:induction false} YearsGrow(y1: int, y2: int)
    requires 1 <= y1 <= y2
    ensures DaysBeforeYear(y1) + 365 * (y2 - y1) <= DaysBeforeYear(y2)
    decreases y2 - y1
  {
    if y1 < y2 {
      YearStep(y1);
      YearsGrow(y1 + 1, y2);
    }
  }

  /** A month adds exactly its own length. */
  lemma MonthStep(y: int, m: int)
    requires 1 <= m <= 12
    ensures DaysBeforeMonth(y, m + 1) == DaysBeforeMonth(y, m) + DaysInMonth(y, m)
  {
  }

  /** Later months start later, and every month ends inside its year. */
  lemma MonthsGrow(y: int, m1: int, m2: int)
    requires 1 <= m1 < m2 <= 13
    ensures DaysBeforeMonth(y, m1) + DaysInMonth(y, m1) <= DaysBeforeMonth(y, m2)
    ensures DaysBeforeMonth(y, 13) == YearLength(y)
  {
    MonthStep(y, m1);
  }

  /** A date's number falls inside its year. */
  lemma DayNumberInYear(d: Date)
    requires ValidDate(d)
    ensures DaysBeforeYear(d.year) < DayNumber(d) <= DaysBeforeYear(d.year) + YearLength(d.year)
  {
    MonthsGrow(d.year, d.month, 13);
  }

  /** Every day of an earlier year comes before every day of a later one. */
  lemma EarlierYear(x: Date, y: Date)
    requires ValidDate(x) && ValidDate(y) && x.year < y.year
    ensures DayNumber(x) < DayNumber(y)
  {
    DayNumberInYear(x);
    DayNumberInYear(y);
    YearStep(x.year);
    YearsGrow(x.year + 1, y.year);
  }

  /** Within a year, every day of an earlier month comes first. */
  lemma EarlierMonth(x: Date, y: Date)
    requires ValidDate(x) && ValidDate(y) && x.year == y.year && x.month < y.month
    ensures DayNumber(x) < DayNumber(y)
  {
    MonthsGrow(x.year, x.month, y.month);
  }

  /** Comparing dates is comparing their day numbers. */
  lemma BeforeIsEarlier(a: Date, b: Date)
    requires ValidDate(a) && ValidDate(b)
    ensures Before(a, b) <==> DayNumber(a) < DayNumber(b)
    ensures a == b <==> DayNumber(a) == DayNumber(b)
  {
    if a.year < b.year {
      EarlierYear(a, b);
    } else if b.year < a.year {
      EarlierYear(b, a);
    } else if a.month < b.month {
      EarlierMonth(a, b);
    } else if b.month < a.month {
      EarlierMonth(b, a);
    }
  }

  /** The day after `d`; `LastDate` has none (Python raises `OverflowError`). */
  function NextDay(d: Date): (e: Date)
    requires ValidDate(d) && d != LastDate
    ensures ValidDate(e) && DayNumber(e) == DayNumber(d) + 1
  {
    if d.day < DaysInMonth(d.year, d.month) then
      Date(d.year, d.month, d.day + 1)
    else if d.month < 12 then
      MonthStep(d.year, d.month);
      Date(d.year, d.month + 1, 1)
    else
      MonthStep(d.year, 12);
      YearStep(d.year);
      Date(d.year + 1, 1, 1)
  }

  /** The last representable day is a Friday. */
  lemma LastDateIsFriday()
    ensures Weekday(LastDate) == 4
  {
  }

  /** The weekday advances by one with each day. */
  lemma WeekdayNext(d: Date)
    requires ValidDate(d) && d != LastDate
    ensures Weekday(NextDay(d)) == (Weekday(d) + 1) % 7
  {
    var n := DayNumber(d);
    assert DayNumber(NextDay(d)) == n + 1;
    ModSevenStep(n);
  }

  lemma ModSevenStep(n: int)
    ensures (n + 1 + 6) % 7 == ((n + 6) % 7 + 1) % 7
  {
  }

  /**
   * The date a birthday on `d` is celebrated: a Saturday moves on two days and
   * a Sunday one day, so it always lands on a working day, at most two days on.
   */
  function Congratulation(d: Date): (c: Date)
    requires ValidDate(d)
    ensures ValidDate(c) && 0 <= Weekday(c) < 5
    ensures DayNumber(d) <= DayNumber(c) <= DayNumber(d) + 2
    ensures Weekday(d) < 5 ==> c == d
    ensures Weekday(d) >= 5 ==> Weekday(c) == 0
  {
    if Weekday(d) == 5 then
      LastDateIsFriday();
      assert d != LastDate;
      var e := NextDay(d);
      WeekdayNext(d);
      assert Weekday(e) == 6 && e != LastDate;
      WeekdayNext(e);
      NextDay(e)
    else if Weekday(d) == 6 then
      LastDateIsFriday();
      assert d != LastDate;
      WeekdayNext(d);
      NextDay(d)
    else
      d
  }

  /** `d.replace(year=y)`, which raises `ValueError` when the result is not a date. */
  function ReplaceYear(d: Date, y: int): (r: Result<Date>)
    ensures r.Ok? <==> ValidDate(Date(y, d.month, d.day))
    ensures r.Ok? ==> r.value == Date(y, d.month, d.day)
    ensures r.Err? ==> r.error.ValueError?
  {
    if !(1 <= y <= MaxYear) then Err(ValueError("year " + IntText(y) + " is out of range"))
    else if !(1 <= d.month <= 12) then Err(ValueError("month must be in 1..12"))
    else if !(1 <= d.day <= DaysInMonth(y, d.month)) then Err(ValueError("day is out of range for month"))
    else Ok(Date(y, d.month, d.day))
  }

  /** `d.strftime("%d.%m.%Y")`, the year written with four digits. */
  function Format(d: Date): (s: string)
    requires ValidDate(d)
  {
    Padded(d.day, 2) + "." + Padded(d.month, 2) + "." + Padded(d.year, 4)
  }
}
