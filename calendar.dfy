/** Calendar dates as integer day numbers, standing in for the date-fns calls of
    the app (`parseISO`, `isValid`, `subDays`, `startOfWeek`, `startOfMonth`, ...).
    A day number counts days from 0001-01-01 of the proleptic Gregorian calendar,
    so the day before day `d` is `d - 1`, and day 0 was a Monday. */
module Calendar {
  import opened JsValues

  type Day = int

  /** A date as written in the store's `YYYY-MM-DD` text form. */
  datatype CivilDate = CivilDate(year: int, month: int, day: int)

  predicate IsLeapYear(y: int) {
    y % 4 == 0 && (y % 100 != 0 || y % 400 == 0)
  }

  function DaysInYear(y: int): int {
    if IsLeapYear(y) then 366 else 365
  }

  function DaysInMonth(y: int, m: int): (n: int)
    requires 1 <= m <= 12
    ensures 28 <= n <= 31
    ensures m == 2 ==> (n == 29 <==> IsLeapYear(y))
  {
    if m == 2 then (if IsLeapYear(y) then 29 else 28)
    else if m == 4 || m == 6 || m == 9 || m == 11 then 30
    else 31
  }

  /** Days of year `y` before the first of month `m` (13 stands for the next January). */
  function DaysBeforeMonth(y: int, m: int): (n: nat)
    requires 1 <= m <= 13
    ensures m == 1 ==> n == 0
    ensures m == 13 ==> n == DaysInYear(y)
  {
    [0, 31, 59, 90, 120, 151, 181, 212, 243, 273, 304, 334, 365][m - 1]
      + (if m > 2 && IsLeapYear(y) then 1 else 0)
  }

  /** Each month adds its own length to the days already passed in the year. */
  lemma DaysBeforeNextMonth(y: int, m: int)
    requires 1 <= m <= 12
    ensures DaysBeforeMonth(y, m + 1) == DaysBeforeMonth(y, m) + DaysInMonth(y, m)
  {
  }

  /** Days from 0001-01-01 to the first of January of year `y`. */
  function DaysBeforeYear(y: int): int {
    var p := y - 1;
    365 * p + p / 4 - p / 100 + p / 400
  }

  predicate IsValidDate(c: CivilDate) {
    1 <= c.month <= 12 && 1 <= c.day <= DaysInMonth(c.year, c.month)
  }

  function DayNumber(c: CivilDate): Day
    requires IsValidDate(c)
  {
    DaysBeforeYear(c.year) + DaysBeforeMonth(c.year, c.month) + c.day - 1
  }

  /** `normalizeDate` of a `YYYY-MM-DD` string: `parseISO` then `isValid`.
      A month or day that does not exist gives no date. */
  function NormalizeDate(c: CivilDate): (r: Option<Day>)
    ensures r.Some? <==> IsValidDate(c)
  {
    if IsValidDate(c) then Some(DayNumber(c)) else None
  }

  /** The calendar date that follows `c`. */
  function NextDate(c: CivilDate): CivilDate
    requires IsValidDate(c)
  {
    if c.day < DaysInMonth(c.year, c.month) then CivilDate(c.year, c.month, c.day + 1)
    else if c.month < 12 then CivilDate(c.year, c.month + 1, 1)
    else CivilDate(c.year + 1, 1, 1)
  }

  /** Day numbers are calendar-consistent: the next date is the next day number.
      This is what makes "one day back" (`subDays(d, 1)`) and "exactly one day
      apart" the integer steps used by the streak computations. */
  lemma NextDateIsNextDay(c: CivilDate)
    requires IsValidDate(c)
    ensures IsValidDate(NextDate(c))
    ensures DayNumber(NextDate(c)) == DayNumber(c) + 1
  {
    DaysBeforeNextMonth(c.year, c.month);
    if c.day == DaysInMonth(c.year, c.month) && c.month == 12 {
      YearLength(c.year);
    }
  }

  /** Year `y` is 366 days long when it is a leap year and 365 otherwise. */
  lemma YearLength(y: int)
    ensures DaysBeforeYear(y + 1) == DaysBeforeYear(y) + DaysInYear(y)
  {
    var p := y - 1;
    DivStep(p, 4);
    DivStep(p, 100);
    DivStep(p, 400);
    assert p + 1 == y;
  }

  lemma DivStep(a: int, k: int)
    requires k > 0
    ensures (a + 1) / k == a / k + (if (a + 1) % k == 0 then 1 else 0)
  {
    var q, r := a / k, a % k;
    assert a == k * q + r;
    if r == k - 1 {
      assert a + 1 == k * (q + 1);
      DivUnique(a + 1, k, q + 1, 0);
    } else {
      DivUnique(a + 1, k, q, r + 1);
    }
  }

  lemma DivUnique(n: int, k: int, q: int, r: int)
    requires k > 0 && 0 <= r < k && n == k * q + r
    ensures n / k == q && n % k == r
  {
    var q', r' := n / k, n % k;
    assert n == k * q' + r';
    assert k * q - k * q' == k * (q - q');
    if q > q' {
      MulAtLeast(k, q - q');
    } else if q < q' {
      MulAtLeast(k, q' - q);
    }
  }

  lemma MulAtLeast(k: int, t: int)
    requires k > 0 && t >= 1
    ensures k * t >= k
  {
    assert k * t == k * (t - 1) + k;
  }

  // ---------------------------------------------------------------------------
  // Weeks, months and years as day ranges
  // ---------------------------------------------------------------------------

  /** 0 for Monday through 6 for Sunday. */
  function Weekday(d: Day): (w: int)
    ensures 0 <= w < 7
  {
    d % 7
  }

  /** Counting `k < 7` days on from a Monday reaches weekday `k`. */
  lemma WeekdayAfterMonday(s: Day, k: int)
    requires Weekday(s) == 0 && 0 <= k < 7
    ensures Weekday(s + k) == k
  {
    var q := s / 7;
    assert s == 7 * q;
    DivUnique(s + k, 7, q, k);
  }

  /** `startOfWeek(d, { weekStartsOn: 1 })`: the Monday on or before `d`. */
  function StartOfWeek(d: Day): (s: Day)
    ensures Weekday(s) == 0 && s <= d < s + 7
  {
    var q := d / 7;
    assert d - Weekday(d) == 7 * q;
    DivUnique(7 * q, 7, q, 0);
    d - Weekday(d)
  }

  /** `endOfWeek(d, { weekStartsOn: 1 })`: the Sunday on or after `d`. */
  function EndOfWeek(d: Day): (e: Day)
    ensures Weekday(e) == 6 && e - 7 < d <= e
    ensures e == StartOfWeek(d) + 6
  {
    WeekdayAfterMonday(StartOfWeek(d), 6);
    StartOfWeek(d) + 6
  }

  /** `startOfMonth`: the first day of month `m` of year `y`. */
  function MonthStart(y: int, m: int): Day
    requires 1 <= m <= 12
  {
    DayNumber(CivilDate(y, m, 1))
  }

  /** `endOfMonth`: the last day of month `m` of year `y`. */
  function MonthEnd(y: int, m: int): (e: Day)
    requires 1 <= m <= 12
    ensures e == MonthStart(y, m) + DaysInMonth(y, m) - 1
  {
    DayNumber(CivilDate(y, m, DaysInMonth(y, m)))
  }

  /** The months of a year follow one another without gap or overlap, and
      December runs into the next year's January. */
  lemma MonthsTile(y: int, m: int)
    requires 1 <= m <= 12
    ensures m < 12 ==> MonthEnd(y, m) + 1 == MonthStart(y, m + 1)
    ensures m == 12 ==> MonthEnd(y, m) + 1 == MonthStart(y + 1, 1)
  {
    NextDateIsNextDay(CivilDate(y, m, DaysInMonth(y, m)));
  }

  /** A valid date lies within its own month and within its own year. */
  lemma DateWithinMonth(c: CivilDate)
    requires IsValidDate(c)
    ensures MonthStart(c.year, c.month) <= DayNumber(c) <= MonthEnd(c.year, c.month)
    ensures MonthStart(c.year, 1) <= DayNumber(c) <= MonthEnd(c.year, 12)
  {
    MonthInYear(c.year, c.month);
  }

  lemma MonthInYear(y: int, m: int)
    requires 1 <= m <= 12
    ensures MonthStart(y, 1) <= MonthStart(y, m)
    ensures MonthEnd(y, m) <= MonthEnd(y, 12)
    decreases 12 - m
  {
    if m < 12 {
      MonthInYear(y, m + 1);
      MonthsTile(y, m);
    }
  }

  /** `new Date(year, month, 1)` reads a year from 0 to 99 as 1900 to 1999. */
  function JsYear(year: int): int {
    if 0 <= year <= 99 then 1900 + year else year
  }

  /** Anchors the numbering to the real calendar: 2024-01-01 was a Monday. */
  lemma NewYear2024WasMonday()
    ensures Weekday(DayNumber(CivilDate(2024, 1, 1))) == 0
  {
    assert DaysBeforeYear(2024) == 738885;
    DivUnique(738885, 7, 105555, 0);
  }
}
