/** The statistics engine (`StatsService`): sums, rates and streaks over the
    rows of the entry table, with the table given as the map it holds. */
module StatsService {
  import opened JsValues
  import opened Calendar
  import opened JournalService

  // ---------------------------------------------------------------------------
  // Sums and rates over a list of rows
  // ---------------------------------------------------------------------------

  /** The number of goals a row sets: the length of its goal list, 0 when the
      goals are not an array. */
  function GoalsSet(e: Entry): nat {
    if e.goals.List? then |e.goals.elems| else 0
  }

  /** `sumGoalsCompleted`: the cached completed counts added up. */
  function SumGoalsCompleted(rows: seq<Row>): nat {
    if rows == [] then 0 else rows[0].entry.goalsCompleted + SumGoalsCompleted(rows[1..])
  }

  /** `sumGoalsSet`: the goal-list lengths added up, a non-array counting 0. */
  function SumGoalsSet(rows: seq<Row>): nat {
    if rows == [] then 0 else GoalsSet(rows[0].entry) + SumGoalsSet(rows[1..])
  }

  /** Every row's count is part of its sum: a sum is 0 exactly when no row
      contributes to it. */
  lemma {:induction false} SumsVanish(rows: seq<Row>)
    ensures SumGoalsCompleted(rows) == 0 <==> forall i :: 0 <= i < |rows| ==> rows[i].entry.goalsCompleted == 0
    ensures SumGoalsSet(rows) == 0 <==> forall i :: 0 <= i < |rows| ==> GoalsSet(rows[i].entry) == 0
  {
    if rows != [] {
      SumsVanish(rows[1..]);
      assert forall i :: 1 <= i < |rows| ==> rows[i] == rows[1..][i - 1];
    }
  }

  /** Both sums distribute over concatenation, so they do not depend on how the
      rows are grouped. */
  lemma {:induction false} SumsOfAppend(a: seq<Row>, b: seq<Row>)
    ensures SumGoalsCompleted(a + b) == SumGoalsCompleted(a) + SumGoalsCompleted(b)
    ensures SumGoalsSet(a + b) == SumGoalsSet(a) + SumGoalsSet(b)
  {
    if a == [] {
      assert a + b == b;
    } else {
      assert (a + b)[1..] == a[1..] + b;
      SumsOfAppend(a[1..], b);
    }
  }

  /** Rows whose cached counts are fresh never claim more completed goals than
      they set. */
  lemma {:induction false} CompletedAtMostSet(rows: seq<Row>)
    requires forall i :: 0 <= i < |rows| ==> CacheFresh(rows[i].entry)
    ensures SumGoalsCompleted(rows) <= SumGoalsSet(rows)
  {
    if rows != [] {
      CompletedAtMostSet(rows[1..]);
    }
  }

  /** `calculateCompletionRate`: the pooled share of completed goals as a
      rounded percentage, 0 when no goal is set. */
  function CompletionRate(rows: seq<Row>): (r: nat)
    ensures SumGoalsSet(rows) == 0 ==> r == 0
    ensures SumGoalsSet(rows) > 0 ==>
      2 * r * SumGoalsSet(rows) <= 200 * SumGoalsCompleted(rows) + SumGoalsSet(rows)
                                < 2 * (r + 1) * SumGoalsSet(rows)
  {
    Percent(SumGoalsCompleted(rows), SumGoalsSet(rows))
  }

  /** Over rows with fresh cached counts the rate is a percentage: at most 100,
      and exactly 100 once 99.5% of the goals set are completed. */
  lemma CompletionRateIsPercentage(rows: seq<Row>)
    requires forall i :: 0 <= i < |rows| ==> CacheFresh(rows[i].entry)
    ensures CompletionRate(rows) <= 100
    ensures SumGoalsSet(rows) > 0 ==>
      (CompletionRate(rows) == 100 <==> 200 * SumGoalsCompleted(rows) >= 199 * SumGoalsSet(rows))
  {
    CompletedAtMostSet(rows);
    PercentBounds(SumGoalsCompleted(rows), SumGoalsSet(rows));
  }

  /** `calculateAverageGoalsPerDay` in tenths: goals set per row, rounded to one
      decimal, and 0 for no rows. */
  function AverageGoalsPerDayTenths(rows: seq<Row>): (t: nat)
    ensures |rows| == 0 ==> t == 0
    ensures |rows| > 0 ==> 2 * t * |rows| <= 20 * SumGoalsSet(rows) + |rows| < 2 * (t + 1) * |rows|
  {
    if |rows| == 0 then 0 else RoundHalfUp(10 * SumGoalsSet(rows), |rows|)
  }

  lemma {:induction false} UniformSum(rows: seq<Row>, k: nat)
    requires forall i :: 0 <= i < |rows| ==> GoalsSet(rows[i].entry) == k
    ensures SumGoalsSet(rows) == k * |rows|
  {
    if rows != [] {
      UniformSum(rows[1..], k);
    }
  }

  /** When every row sets the same number `k` of goals, the average is exactly
      `k` (that is, `10 * k` tenths). */
  lemma UniformAverage(rows: seq<Row>, k: nat)
    requires |rows| > 0
    requires forall i :: 0 <= i < |rows| ==> GoalsSet(rows[i].entry) == k
    ensures AverageGoalsPerDayTenths(rows) == 10 * k
  {
    var n, t := |rows|, AverageGoalsPerDayTenths(rows);
    UniformSum(rows, k);
    assert 20 * SumGoalsSet(rows) + n == (20 * k + 1) * n;
    CancelFactor(2 * t, 20 * k + 1, n);
    assert (20 * k + 1) * n < (2 * t + 2) * n;
    CancelFactorStrict(20 * k + 1, 2 * t + 2, n);
  }

  // ---------------------------------------------------------------------------
  // getEntriesInRange
  // ---------------------------------------------------------------------------

  /** `getEntriesInRange(start, end)`: no rows when either bound is not a valid
      date; otherwise the rows dated from `start` to `end`, newest first. */
  function EntriesInRange(m: map<Day, Entry>, start: Option<Day>, end: Option<Day>): seq<Row> {
    if start.None? || end.None? then [] else RowsInRange(NewestFirst(m), start.value, end.value)
  }

  /** The range query returns nothing for an invalid bound and otherwise
      exactly the rows dated from `start` to `end`, both included, newest
      first. */
  lemma EntriesInRangeSelects(m: map<Day, Entry>, start: Option<Day>, end: Option<Day>)
    ensures start.None? || end.None? ==> EntriesInRange(m, start, end) == []
    ensures start.Some? && end.Some? ==> ListsRange(m, start.value, end.value, EntriesInRange(m, start, end))
  {
    if start.Some? && end.Some? {
      FilterListsRange(m, start.value, end.value);
    }
  }

  /** The dates a list of rows covers. */
  function DatesOf(rows: seq<Row>): set<Day> {
    if rows == [] then {} else {rows[0].date} + DatesOf(rows[1..])
  }

  /** Rows on strictly descending dates are one per date. */
  lemma {:induction false} OneRowPerDate(rows: seq<Row>)
    requires forall i, j :: 0 <= i < j < |rows| ==> rows[i].date > rows[j].date
    ensures |DatesOf(rows)| == |rows|
    ensures forall d :: d in DatesOf(rows) <==> exists i :: 0 <= i < |rows| && rows[i].date == d
  {
    if rows != [] {
      OneRowPerDate(rows[1..]);
      assert forall i :: 1 <= i < |rows| ==> rows[1..][i - 1] == rows[i];
      assert rows[0].date !in DatesOf(rows[1..]);
    }
  }

  /** Rows on strictly descending dates within `lo..hi` number at most the days
      of that span. */
  lemma {:induction false} RangeHoldsAtMostSpan(rows: seq<Row>, lo: Day, hi: Day)
    requires forall i, j :: 0 <= i < j < |rows| ==> rows[i].date > rows[j].date
    requires forall i :: 0 <= i < |rows| ==> lo <= rows[i].date <= hi
    ensures |rows| <= if lo <= hi then hi - lo + 1 else 0
  {
    if rows != [] {
      RangeHoldsAtMostSpan(rows[1..], lo, rows[0].date - 1);
    }
  }

  /** Splitting a date span in two splits the rows it selects, and their
      completed-goal sum, in two. */
  lemma {:induction false} RangeSplits(rows: seq<Row>, lo: Day, mid: Day, hi: Day)
    requires lo <= mid + 1 && mid <= hi
    ensures |RowsInRange(rows, lo, hi)| == |RowsInRange(rows, lo, mid)| + |RowsInRange(rows, mid + 1, hi)|
    ensures SumGoalsCompleted(RowsInRange(rows, lo, hi))
         == SumGoalsCompleted(RowsInRange(rows, lo, mid)) + SumGoalsCompleted(RowsInRange(rows, mid + 1, hi))
  {
    if rows != [] {
      RangeSplits(rows[1..], lo, mid, hi);
      var x := rows[0];
      var all, left, right :=
        RowsInRange(rows[1..], lo, hi), RowsInRange(rows[1..], lo, mid), RowsInRange(rows[1..], mid + 1, hi);
      if lo <= x.date <= mid {
        assert ([x] + all)[1..] == all && ([x] + left)[1..] == left;
      } else if mid < x.date <= hi {
        assert ([x] + all)[1..] == all && ([x] + right)[1..] == right;
      }
    }
  }

  // ---------------------------------------------------------------------------
  // getWeeklyStats, getMonthlyStats, getYearlyStats
  // ---------------------------------------------------------------------------

  datatype PeriodStats = PeriodStats(
    totalEntries: nat,
    totalGoalsCompleted: nat,
    totalGoalsSet: nat,
    completionRate: nat,
    daysWithEntries: nat)

  function Summarize(rows: seq<Row>): PeriodStats {
    PeriodStats(|rows|, SumGoalsCompleted(rows), SumGoalsSet(rows), CompletionRate(rows), |rows|)
  }

  /** Rows read from a table whose cached counts are fresh have a completion
      rate that is a percentage. */
  lemma StoredRowsArePercentages(m: map<Day, Entry>, rows: seq<Row>)
    requires forall i :: 0 <= i < |rows| ==> rows[i].date in m && m[rows[i].date] == rows[i].entry
    ensures CachesFresh(m) ==>
      CompletionRate(rows) <= 100 && SumGoalsCompleted(rows) <= SumGoalsSet(rows)
  {
    if CachesFresh(m) {
      CompletionRateIsPercentage(rows);
      CompletedAtMostSet(rows);
    }
  }

  /** A range listing has one row per stored day of the range, and never more
      rows than the range has days. */
  lemma RangeListingCount(m: map<Day, Entry>, lo: Day, hi: Day, rows: seq<Row>)
    requires ListsRange(m, lo, hi, rows)
    ensures |rows| == |set d | d in m && lo <= d <= hi|
    ensures |rows| <= if lo <= hi then hi - lo + 1 else 0
    ensures |rows| > 0 <==> exists d :: d in m && lo <= d <= hi
  {
    OneRowPerDate(rows);
    assert DatesOf(rows) == set d | d in m && lo <= d <= hi by {
      forall d | d in m && lo <= d <= hi ensures d in DatesOf(rows) {
        var k :| 0 <= k < |rows| && rows[k] == Row(d, m[d]);
      }
      forall d | d in DatesOf(rows) ensures d in m && lo <= d <= hi {
        var k :| 0 <= k < |rows| && rows[k].date == d;
      }
    }
    if |rows| > 0 {
      assert rows[0].date in m;
    }
    RangeHoldsAtMostSpan(rows, lo, hi);
  }

  /** The stats of the rows from `lo` to `hi`: one row per stored day of that
      span, never more rows than days, and a percentage over fresh rows. */
  function PeriodSummary(m: map<Day, Entry>, lo: Day, hi: Day): (s: PeriodStats)
    ensures s.totalEntries == s.daysWithEntries == |set d | d in m && lo <= d <= hi|
    ensures s.totalEntries <= if lo <= hi then hi - lo + 1 else 0
    ensures s.totalEntries > 0 <==> exists d :: d in m && lo <= d <= hi
    ensures CachesFresh(m) ==> s.completionRate <= 100 && s.totalGoalsCompleted <= s.totalGoalsSet
  {
    var rows := EntriesInRange(m, Some(lo), Some(hi));
    EntriesInRangeSelects(m, Some(lo), Some(hi));
    RangeListingCount(m, lo, hi, rows);
    StoredRowsArePercentages(m, rows);
    Summarize(rows)
  }

  /** The stats every period reports when its date is not a valid date: the
      range query returns no rows. */
  function NoStats(): PeriodStats {
    Summarize([])
  }

  /** `getWeeklyStats(date)`: the Monday-to-Sunday week holding `date`, and the
      current streak ending on it. */
  method WeeklyStats(m: map<Day, Entry>, date: CivilDate) returns (s: PeriodStats, streak: nat)
    ensures !IsValidDate(date) ==> s == NoStats() && streak == 0
    ensures IsValidDate(date) ==>
      s == PeriodSummary(m, StartOfWeek(DayNumber(date)), EndOfWeek(DayNumber(date)))
    ensures s.totalEntries <= 7 && streak <= 365
    ensures IsValidDate(date) ==> (streak > 0 <==> DayNumber(date) in m)
    ensures IsValidDate(date) ==> forall d :: DayNumber(date) - streak < d <= DayNumber(date) ==> d in m
    ensures IsValidDate(date) && streak < 365 ==> DayNumber(date) - streak !in m
    ensures streak > 0 ==> s.totalEntries > 0
  {
    var d := NormalizeDate(date);
    streak := CalculateStreak(m, d);
    if d.None? {
      s := NoStats();
    } else {
      s := PeriodSummary(m, StartOfWeek(d.value), EndOfWeek(d.value));
      WeekHoldsStreakDay(m, d.value, streak);
    }
  }

  /** The week of `day` has at most seven entries, and it has one whenever a
      streak ends on `day`. */
  lemma WeekHoldsStreakDay(m: map<Day, Entry>, day: Day, streak: nat)
    requires streak <= 365
    requires forall d :: day - streak < d <= day ==> d in m
    requires streak < 365 ==> day - streak !in m
    ensures PeriodSummary(m, StartOfWeek(day), EndOfWeek(day)).totalEntries <= 7
    ensures streak > 0 <==> day in m
    ensures streak > 0 ==> PeriodSummary(m, StartOfWeek(day), EndOfWeek(day)).totalEntries > 0
  {
    StreakStartsAtAnchor(m, day, streak);
    if streak > 0 {
      assert day in m && StartOfWeek(day) <= day <= EndOfWeek(day);
    }
  }

  /** A streak is under way exactly when its anchor day has an entry. */
  lemma StreakStartsAtAnchor(m: map<Day, Entry>, anchor: Day, streak: nat)
    requires streak <= 365
    requires forall d :: anchor - streak < d <= anchor ==> d in m
    requires streak < 365 ==> anchor - streak !in m
    ensures streak > 0 <==> anchor in m
  {
    if streak == 0 {
      assert anchor - streak == anchor;
    }
  }

  /** `getMonthlyStats(date)`: the calendar month holding `date`, and its
      average goals per day in tenths. */
  function MonthlyStats(m: map<Day, Entry>, date: CivilDate): (r: (PeriodStats, nat))
    ensures !IsValidDate(date) ==> r == (NoStats(), 0)
    ensures IsValidDate(date) ==> r.0 == PeriodSummary(m, MonthStart(date.year, date.month), MonthEnd(date.year, date.month))
    ensures IsValidDate(date) ==> r.0.totalEntries <= DaysInMonth(date.year, date.month)
    ensures IsValidDate(date) ==> r.1 == AverageGoalsPerDayTenths(
      EntriesInRange(m, Some(MonthStart(date.year, date.month)), Some(MonthEnd(date.year, date.month))))
    ensures IsValidDate(date) && DayNumber(date) in m ==> r.0.totalEntries > 0
  {
    if !IsValidDate(date) then (NoStats(), 0)
    else
      var lo, hi := MonthStart(date.year, date.month), MonthEnd(date.year, date.month);
      DateWithinMonth(date);
      (PeriodSummary(m, lo, hi), AverageGoalsPerDayTenths(EntriesInRange(m, Some(lo), Some(hi))))
  }

  /** The first day of year `y` and the length of the year as a day span. */
  lemma YearSpan(y: int)
    ensures MonthStart(y, 1) == DaysBeforeYear(y)
    ensures MonthEnd(y, 12) - MonthStart(y, 1) + 1 == DaysInYear(y)
  {
    MonthsTile(y, 12);
    YearLength(y);
  }

  /** `getYearlyStats(date)` without its monthly breakdown: the calendar year
      holding `date`, and its average goals per day in tenths. */
  function YearlyStats(m: map<Day, Entry>, date: CivilDate): (r: (PeriodStats, nat))
    ensures !IsValidDate(date) ==> r == (NoStats(), 0)
    ensures IsValidDate(date) ==> r.0 == PeriodSummary(m, MonthStart(date.year, 1), MonthEnd(date.year, 12))
    ensures IsValidDate(date) ==> r.0.totalEntries <= DaysInYear(date.year)
    ensures IsValidDate(date) ==> r.1 == AverageGoalsPerDayTenths(
      EntriesInRange(m, Some(MonthStart(date.year, 1)), Some(MonthEnd(date.year, 12))))
    ensures IsValidDate(date) && DayNumber(date) in m ==> r.0.totalEntries > 0
  {
    if !IsValidDate(date) then (NoStats(), 0)
    else
      var lo, hi := MonthStart(date.year, 1), MonthEnd(date.year, 12);
      DateWithinMonth(date);
      YearSpan(date.year);
      (PeriodSummary(m, lo, hi), AverageGoalsPerDayTenths(EntriesInRange(m, Some(lo), Some(hi))))
  }

  // ---------------------------------------------------------------------------
  // calculateStreak
  // ---------------------------------------------------------------------------

  /** `calculateStreak(endDate)`: walks back one day at a time from `anchor`
      while each day has an entry, stopping at 365. The result `k` says that
      the `k` days ending at `anchor` all have entries and, below the cap, that
      the day before them has none. */
  method CalculateStreak(m: map<Day, Entry>, anchor: Option<Day>) returns (streak: nat)
    ensures streak <= 365
    ensures anchor.None? ==> streak == 0
    ensures anchor.Some? ==> forall d :: anchor.value - streak < d <= anchor.value ==> d in m
    ensures anchor.Some? && streak < 365 ==> anchor.value - streak !in m
  {
    streak := 0;
    if anchor.None? {
      return;
    }
    var current := anchor.value;
    while true
      invariant streak < 365 && current == anchor.value - streak
      invariant forall d :: anchor.value - streak < d <= anchor.value ==> d in m
      decreases 365 - streak
    {
      if current in m {
        streak := streak + 1;
        current := current - 1;
      } else {
        break;
      }
      if streak >= 365 {
        break;
      }
    }
  }

  // ---------------------------------------------------------------------------
  // getLongestStreak
  // ---------------------------------------------------------------------------

  /** The dates the scan compares: those `normalizeDate` accepts, in order. */
  function Valids(ds: seq<Option<Day>>): (vs: seq<Day>)
    ensures |vs| <= |ds|
  {
    if ds == [] then []
    else Valids(ds[..|ds| - 1]) + (if ds[|ds| - 1].Some? then [ds[|ds| - 1].value] else [])
  }

  /** The `len` dates from position `start` on step forward one day at a
      time. */
  ghost predicate IsRun(vs: seq<Day>, start: int, len: int) {
    0 <= start && 1 <= len && start + len <= |vs|
    && forall k :: start < k < start + len ==> vs[k] - vs[k - 1] == 1
  }

  /** The dates from position `start` to the last one form a run. */
  ghost predicate EndsRun(vs: seq<Day>, start: int) {
    IsRun(vs, start, |vs| - start)
  }

  /** The length of the run of one-day steps ending at the last date. */
  function RunAtEnd(vs: seq<Day>): (r: nat)
    requires vs != []
    ensures 1 <= r <= |vs|
  {
    if |vs| == 1 then 1
    else if vs[|vs| - 1] - vs[|vs| - 2] == 1 then RunAtEnd(vs[..|vs| - 1]) + 1
    else 1
  }

  /** The longest run of one-day steps anywhere in `vs`. */
  function LongestRun(vs: seq<Day>): (r: nat)
    ensures r <= |vs| && (vs != [] ==> 1 <= r)
  {
    if |vs| <= 1 then |vs|
    else
      var before, here := LongestRun(vs[..|vs| - 1]), RunAtEnd(vs);
      if before < here then here else before
  }

  /** The run counted by `RunAtEnd` is a run, and no run ending at the last
      date is longer. */
  lemma {:induction false} RunAtEndIsMaximal(vs: seq<Day>)
    requires vs != []
    ensures EndsRun(vs, |vs| - RunAtEnd(vs))
    ensures forall i :: EndsRun(vs, i) ==> |vs| - i <= RunAtEnd(vs)
  {
    var n := |vs|;
    if n > 1 {
      var p := vs[..n - 1];
      RunAtEndIsMaximal(p);
      assert forall k :: 0 <= k < n - 1 ==> p[k] == vs[k];
      if vs[n - 1] - vs[n - 2] == 1 {
        assert IsRun(p, n - RunAtEnd(vs), n - 1 - (n - RunAtEnd(vs)));
      }
      assert IsRun(vs, n - RunAtEnd(vs), RunAtEnd(vs));
      forall i | EndsRun(vs, i) ensures n - i <= RunAtEnd(vs) {
        if i < n - 1 {
          assert IsRun(p, i, n - 1 - i);
          assert EndsRun(p, i);
        }
      }
    } else {
      assert IsRun(vs, 0, 1);
    }
  }

  /** `LongestRun` is the length of the longest run: some run has that length
      and none is longer. */
  lemma {:induction false} LongestRunIsLongest(vs: seq<Day>)
    requires vs != []
    ensures exists i :: IsRun(vs, i, LongestRun(vs))
    ensures forall i, len :: IsRun(vs, i, len) ==> len <= LongestRun(vs)
  {
    var n := |vs|;
    RunAtEndIsMaximal(vs);
    if n == 1 {
      assert LongestRun(vs) == 1;
      assert IsRun(vs, 0, 1);
    } else {
      var p := vs[..n - 1];
      LongestRunIsLongest(p);
      assert forall k :: 0 <= k < n - 1 ==> p[k] == vs[k];
      if LongestRun(p) >= RunAtEnd(vs) {
        var i :| IsRun(p, i, LongestRun(p));
        assert IsRun(vs, i, LongestRun(vs));
      } else {
        assert EndsRun(vs, n - RunAtEnd(vs));
        assert IsRun(vs, n - RunAtEnd(vs), LongestRun(vs));
      }
      forall i, len | IsRun(vs, i, len) ensures len <= LongestRun(vs) {
        if i + len < n {
          assert IsRun(p, i, len);
        } else {
          assert EndsRun(vs, i);
        }
      }
    }
  }

  /** The longest run is not capped: `n` consecutive days make a run of `n`,
      365 or more. */
  lemma LongestRunOfConsecutiveDays(first: Day, n: nat)
    requires n > 0
    ensures LongestRun(seq(n, k => first + k)) == n
  {
    var vs := seq(n, k => first + k);
    LongestRunIsLongest(vs);
    assert IsRun(vs, 0, n);
  }

  /** What `getLongestStreak` returns for the dates of the table in ascending
      order: 0 for none, 1 when the first date is not a valid date (it stays
      the previous date and every comparison is skipped), otherwise the
      longest run among the valid dates. */
  function LongestStreakOf(ds: seq<Option<Day>>): nat {
    if |ds| == 0 then 0
    else if ds[0].None? then 1
    else LongestRun(Valids(ds))
  }

  /** `getLongestStreak`: the scan over the dates in ascending order, skipping a
      date that is not valid without making it the previous date. */
  method LongestStreak(ds: seq<Option<Day>>) returns (longest: nat)
    ensures longest == LongestStreakOf(ds)
    ensures ds == [] <==> longest == 0
    ensures longest <= |ds|
  {
    if |ds| == 0 {
      return 0;
    }
    longest := 1;
    var current := 1;
    var previous := ds[0];
    ValidsSnoc(ds, 0);
    assert ds[..0] == [];
    ghost var vs := Valids(ds[..1]);
    var i := 1;
    while i < |ds|
      invariant 1 <= i <= |ds| && vs == Valids(ds[..i])
      invariant ds[0].None? ==> previous.None? && longest == 1
      invariant ds[0].Some? ==> vs != [] && previous == Some(vs[|vs| - 1])
      invariant ds[0].Some? ==> current == RunAtEnd(vs) && longest == LongestRun(vs)
    {
      ValidsSnoc(ds, i);
      var here := ds[i];
      if here.Some? && previous.Some? {
        ExtendRun(vs, here.value);
        if here.value - previous.value == 1 {
          current := current + 1;
          longest := if longest < current then current else longest;
        } else {
          current := 1;
        }
        previous := here;
      }
      if here.Some? {
        vs := vs + [here.value];
      }
      i := i + 1;
    }
    assert ds[..i] == ds;
    if ds[0].Some? {
      assert |Valids(ds)| <= |ds|;
    }
  }

  /** Scanning one more date adds it to the valid dates when it is valid. */
  lemma ValidsSnoc(ds: seq<Option<Day>>, i: nat)
    requires i < |ds|
    ensures ds[i].None? ==> Valids(ds[..i + 1]) == Valids(ds[..i])
    ensures ds[i].Some? ==> Valids(ds[..i + 1]) == Valids(ds[..i]) + [ds[i].value]
  {
    assert ds[..i + 1][..i] == ds[..i];
    assert Valids(ds[..i]) + [] == Valids(ds[..i]);
  }

  /** One more date continues the run at the end when it is the next day, and
      starts a new one otherwise. */
  lemma ExtendRun(vs: seq<Day>, v: Day)
    requires vs != []
    ensures RunAtEnd(vs + [v]) == if v - vs[|vs| - 1] == 1 then RunAtEnd(vs) + 1 else 1
    ensures LongestRun(vs + [v]) ==
      if LongestRun(vs) < RunAtEnd(vs + [v]) then RunAtEnd(vs + [v]) else LongestRun(vs)
  {
    assert (vs + [v])[..|vs|] == vs;
  }

  lemma {:induction false} ValidsOfValid(ds: seq<Day>)
    ensures Valids(seq(|ds|, k requires 0 <= k < |ds| => Some(ds[k]))) == ds
  {
    if ds != [] {
      var n := |ds|;
      var os := seq(n, k requires 0 <= k < n => Some(ds[k]));
      ValidsOfValid(ds[..n - 1]);
      assert os[..n - 1] == seq(n - 1, k requires 0 <= k < n - 1 => Some(ds[..n - 1][k]));
      assert ds[..n - 1] + [ds[n - 1]] == ds;
    }
  }

  /** `getLongestStreak` over the table: every stored date is valid, so the
      result is the longest run of consecutive stored days, 0 exactly when the
      table is empty. */
  method StoreLongestStreak(m: map<Day, Entry>) returns (longest: nat)
    ensures longest == LongestRun(AllDatesAscending(m))
    ensures longest == 0 <==> |m| == 0
    ensures longest <= |m|
  {
    var ds := AllDatesAscending(m);
    var os := seq(|ds|, k requires 0 <= k < |ds| => Some(ds[k]));
    ValidsOfValid(ds);
    longest := LongestStreak(os);
  }

  // ---------------------------------------------------------------------------
  // getTrendData
  // ---------------------------------------------------------------------------

  datatype TrendPoint = TrendPoint(date: Day, hasEntry: bool, goalsCompleted: nat, completionRate: nat)

  /** The point recorded for day `d`: its cached completed count and rate when
      there is a row (rate 0 when its goals have no positive length), zeros
      otherwise. */
  function TrendPointFor(m: map<Day, Entry>, d: Day): TrendPoint {
    if d in m then
      var e := m[d];
      var rate := if e.goals.List? && |e.goals.elems| > 0 then Percent(e.goalsCompleted, |e.goals.elems|) else 0;
      TrendPoint(d, true, e.goalsCompleted, rate)
    else TrendPoint(d, false, 0, 0)
  }

  /** Some day of the window has a row whose goals parse to `null`, so reading
      their `length` throws and the whole series is abandoned. */
  predicate TrendThrows(m: map<Day, Entry>, today: Day) {
    exists d :: today - 6 <= d <= today && d in m && m[d].goals.Nullish()
  }

  /** `getTrendData`: one point per day from six days before `today` to
      `today`, oldest first; `[]` when a day in that window makes the loop
      throw. */
  method TrendData(m: map<Day, Entry>, today: Day) returns (trend: seq<TrendPoint>)
    ensures TrendThrows(m, today) ==> trend == []
    ensures !TrendThrows(m, today) ==>
      |trend| == 7 && forall k :: 0 <= k < 7 ==> trend[k] == TrendPointFor(m, today - 6 + k)
  {
    trend := [];
    var i := 6;
    while i >= 0
      invariant -1 <= i <= 6 && |trend| == 6 - i
      invariant forall k :: 0 <= k < 6 - i ==> trend[k] == TrendPointFor(m, today - 6 + k)
      invariant forall d :: today - 6 <= d < today - i && d in m ==> !m[d].goals.Nullish()
    {
      var date := today - i;
      if date in m {
        var e := m[date];
        if e.goals.Nullish() {
          return [];
        }
        var rate := if e.goals.List? && |e.goals.elems| > 0 then Percent(e.goalsCompleted, |e.goals.elems|) else 0;
        trend := trend + [TrendPoint(date, true, e.goalsCompleted, rate)];
      } else {
        trend := trend + [TrendPoint(date, false, 0, 0)];
      }
      i := i - 1;
    }
  }

  /** A point of a row with a fresh cached count has a rate that is a
      percentage: 100 when every goal is completed, 0 when none is. */
  lemma TrendRateIsPercentage(m: map<Day, Entry>, d: Day)
    requires d in m && CacheFresh(m[d])
    ensures TrendPointFor(m, d).completionRate <= 100
    ensures m[d].goals.List? && |m[d].goals.elems| > 0 ==>
      ((forall i :: 0 <= i < |m[d].goals.elems| ==> m[d].goals.elems[i].completed)
         ==> TrendPointFor(m, d).completionRate == 100)
    ensures (m[d].goals.List? && forall i :: 0 <= i < |m[d].goals.elems| ==> !m[d].goals.elems[i].completed)
         ==> TrendPointFor(m, d).completionRate == 0
  {
    var e := m[d];
    if e.goals.List? && |e.goals.elems| > 0 {
      PercentBounds(e.goalsCompleted, |e.goals.elems|);
      PercentExtremes(|e.goals.elems|);
    }
  }

  // ---------------------------------------------------------------------------
  // getMonthlyBreakdown
  // ---------------------------------------------------------------------------

  datatype MonthRecord = MonthRecord(month: int, totalEntries: nat, totalGoalsCompleted: nat, completionRate: nat)

  /** The record for month `month` (1 to 12) of year `y`. */
  function MonthRecordFor(m: map<Day, Entry>, y: int, month: int): MonthRecord
    requires 1 <= month <= 12
  {
    var rows := EntriesInRange(m, Some(MonthStart(y, month)), Some(MonthEnd(y, month)));
    MonthRecord(month, |rows|, SumGoalsCompleted(rows), CompletionRate(rows))
  }

  /** `getMonthlyBreakdown(year)`: one record per month, January first, over
      the year `new Date(year, month, 1)` denotes. */
  method MonthlyBreakdown(m: map<Day, Entry>, year: int) returns (breakdown: seq<MonthRecord>)
    ensures |breakdown| == 12
    ensures forall k :: 0 <= k < 12 ==>
      breakdown[k].month == k + 1 && breakdown[k] == MonthRecordFor(m, JsYear(year), k + 1)
  {
    breakdown := [];
    var month := 0;
    while month < 12
      invariant 0 <= month <= 12 && |breakdown| == month
      invariant forall k :: 0 <= k < month ==>
        breakdown[k].month == k + 1 && breakdown[k] == MonthRecordFor(m, JsYear(year), k + 1)
    {
      var y := JsYear(year);
      var rows := EntriesInRange(m, Some(MonthStart(y, month + 1)), Some(MonthEnd(y, month + 1)));
      breakdown := breakdown + [MonthRecord(month + 1, |rows|, SumGoalsCompleted(rows), CompletionRate(rows))];
      month := month + 1;
    }
  }

  /** The entries and completed goals of months 1 to `n` of year `y`. */
  function MonthsEntries(m: map<Day, Entry>, y: int, n: int): nat
    requires 0 <= n <= 12
  {
    if n == 0 then 0 else MonthsEntries(m, y, n - 1) + MonthRecordFor(m, y, n).totalEntries
  }

  function MonthsGoalsCompleted(m: map<Day, Entry>, y: int, n: int): nat
    requires 0 <= n <= 12
  {
    if n == 0 then 0 else MonthsGoalsCompleted(m, y, n - 1) + MonthRecordFor(m, y, n).totalGoalsCompleted
  }

  /** The rows from January 1 of year `y` to the last day of month `n`. */
  function RowsToEndOfMonth(m: map<Day, Entry>, y: int, n: int): seq<Row>
    requires 1 <= n <= 12
  {
    RowsInRange(NewestFirst(m), MonthStart(y, 1), MonthEnd(y, n))
  }

  /** The first `n` months of a breakdown add up to the stats of the span from
      January 1 to the end of month `n`. */
  lemma {:induction false} MonthsAddUp(m: map<Day, Entry>, y: int, n: int)
    requires 1 <= n <= 12
    ensures MonthsEntries(m, y, n) == |RowsToEndOfMonth(m, y, n)|
      && MonthsGoalsCompleted(m, y, n) == SumGoalsCompleted(RowsToEndOfMonth(m, y, n))
  {
    if n == 1 {
      FirstMonth(m, y);
    } else {
      MonthsAddUp(m, y, n - 1);
      AddNextMonth(m, y, n);
    }
  }

  /** From months 1 to `n - 1` to months 1 to `n`. */
  lemma AddNextMonth(m: map<Day, Entry>, y: int, n: int)
    requires 2 <= n <= 12
    requires MonthsEntries(m, y, n - 1) == |RowsToEndOfMonth(m, y, n - 1)|
      && MonthsGoalsCompleted(m, y, n - 1) == SumGoalsCompleted(RowsToEndOfMonth(m, y, n - 1))
    ensures MonthsEntries(m, y, n) == |RowsToEndOfMonth(m, y, n)|
      && MonthsGoalsCompleted(m, y, n) == SumGoalsCompleted(RowsToEndOfMonth(m, y, n))
  {
    MonthInYear(y, n - 1);
    var lo, mid, hi := MonthStart(y, 1), MonthEnd(y, n - 1), MonthEnd(y, n);
    NextMonth(m, y, n);
    assert RowsToEndOfMonth(m, y, n - 1) == RowsInRange(NewestFirst(m), lo, mid);
    assert RowsToEndOfMonth(m, y, n) == RowsInRange(NewestFirst(m), lo, hi);
    AddMonth(m, lo, mid, hi, MonthsEntries(m, y, n - 1), MonthsGoalsCompleted(m, y, n - 1));
  }

  /** January alone: its record is the span's stats. */
  lemma FirstMonth(m: map<Day, Entry>, y: int)
    ensures MonthsEntries(m, y, 1) == |RowsToEndOfMonth(m, y, 1)|
      && MonthsGoalsCompleted(m, y, 1) == SumGoalsCompleted(RowsToEndOfMonth(m, y, 1))
  {
  }

  /** Month `n` starts the day after month `n - 1` ends, and adds its own
      record to the running totals. */
  lemma NextMonth(m: map<Day, Entry>, y: int, n: int)
    requires 2 <= n <= 12
    ensures MonthEnd(y, n - 1) < MonthEnd(y, n)
    ensures MonthsEntries(m, y, n)
         == MonthsEntries(m, y, n - 1) + |EntriesInRange(m, Some(MonthEnd(y, n - 1) + 1), Some(MonthEnd(y, n)))|
    ensures MonthsGoalsCompleted(m, y, n)
         == MonthsGoalsCompleted(m, y, n - 1)
            + SumGoalsCompleted(EntriesInRange(m, Some(MonthEnd(y, n - 1) + 1), Some(MonthEnd(y, n))))
  {
    MonthsTile(y, n - 1);
    assert MonthStart(y, n) == MonthEnd(y, n - 1) + 1;
  }

  /** One step of `MonthsAddUp`, with the month bounds as plain day numbers. */
  lemma AddMonth(m: map<Day, Entry>, lo: Day, mid: Day, hi: Day, entries: nat, completed: nat)
    requires lo <= mid + 1 && mid <= hi
    requires entries == |RowsInRange(NewestFirst(m), lo, mid)|
    requires completed == SumGoalsCompleted(RowsInRange(NewestFirst(m), lo, mid))
    ensures entries + |EntriesInRange(m, Some(mid + 1), Some(hi))| == |RowsInRange(NewestFirst(m), lo, hi)|
    ensures completed + SumGoalsCompleted(EntriesInRange(m, Some(mid + 1), Some(hi)))
         == SumGoalsCompleted(RowsInRange(NewestFirst(m), lo, hi))
  {
    var all := NewestFirst(m);
    RangeSplits(all, lo, mid, hi);
    assert EntriesInRange(m, Some(mid + 1), Some(hi)) == RowsInRange(all, mid + 1, hi);
  }

  /** The twelve monthly records add up to the year: their entries and
      completed goals sum to those `getYearlyStats` reports for the same year. */
  lemma BreakdownAddsUpToYear(m: map<Day, Entry>, y: int)
    ensures MonthsEntries(m, y, 12) == PeriodSummary(m, MonthStart(y, 1), MonthEnd(y, 12)).totalEntries
    ensures MonthsGoalsCompleted(m, y, 12) == PeriodSummary(m, MonthStart(y, 1), MonthEnd(y, 12)).totalGoalsCompleted
  {
    MonthsAddUp(m, y, 12);
  }

  // ---------------------------------------------------------------------------
  // getSectionCompletionStats
  // ---------------------------------------------------------------------------

  /** `JSON.parse(column || '[]')` where an array is needed: SQL NULL reads as
      the empty array; the text `null` parses to `null` and any other
      non-array value has no `some` either, so both make the call throw. */
  function ArrayOrEmpty<T>(l: JsList<T>): Option<seq<T>> {
    match l
    case List(elems) => Some(elems)
    case Undefined => Some([])
    case Null => None
    case NonList => None
  }

  /** Some item is not blank. */
  predicate SomeNonBlank(items: seq<string>) {
    exists i :: 0 <= i < |items| && !IsBlank(items[i])
  }

  /** Some goal has a non-empty, non-blank text: only the texts count, never
      the completed flags. */
  predicate SomeGoalText(goals: seq<Goal>) {
    exists i :: 0 <= i < |goals| && goals[i].text != "" && !IsBlank(goals[i].text)
  }

  datatype Section = Affirmations | Gratitude | Goals

  /** Every section of the row can be read as an array. */
  predicate Readable(e: Entry) {
    ArrayOrEmpty(e.affirmations).Some? && ArrayOrEmpty(e.gratitude).Some? && ArrayOrEmpty(e.goals).Some?
  }

  /** The row counts towards section `s`. */
  predicate Filled(e: Entry, s: Section)
    requires Readable(e)
  {
    match s
    case Affirmations => SomeNonBlank(ArrayOrEmpty(e.affirmations).value)
    case Gratitude => SomeNonBlank(ArrayOrEmpty(e.gratitude).value)
    case Goals => SomeGoalText(ArrayOrEmpty(e.goals).value)
  }

  /** How many of `rows` count towards section `s`. */
  function FilledCount(rows: seq<Row>, s: Section): (n: nat)
    requires forall i :: 0 <= i < |rows| ==> Readable(rows[i].entry)
    ensures n <= |rows|
  {
    if rows == [] then 0
    else (if Filled(rows[0].entry, s) then 1 else 0) + FilledCount(rows[1..], s)
  }

  datatype SectionStat = SectionStat(completedEntries: nat, completionRate: nat)
  datatype SectionStats = SectionStats(
    affirmations: SectionStat, gratitude: SectionStat, goals: SectionStat, totalEntries: nat)

  /** The catch branch: everything zero. */
  function ZeroSectionStats(): SectionStats {
    SectionStats(SectionStat(0, 0), SectionStat(0, 0), SectionStat(0, 0), 0)
  }

  function SectionStatOf(rows: seq<Row>, s: Section): SectionStat
    requires forall i :: 0 <= i < |rows| ==> Readable(rows[i].entry)
  {
    SectionStat(FilledCount(rows, s), Percent(FilledCount(rows, s), |rows|))
  }

  /** `getSectionCompletionStats` over the rows of the table (in any order):
      per section, how many rows have content and what share of all rows that
      is; all zero when some row has a section that is not an array. */
  method SectionCompletionStats(rows: seq<Row>) returns (stats: SectionStats)
    ensures (exists i :: 0 <= i < |rows| && !Readable(rows[i].entry)) ==> stats == ZeroSectionStats()
    ensures (forall i :: 0 <= i < |rows| ==> Readable(rows[i].entry)) ==>
      stats == SectionStats(SectionStatOf(rows, Affirmations), SectionStatOf(rows, Gratitude),
                            SectionStatOf(rows, Goals), |rows|)
  {
    var affirmationsCount, gratitudeCount, goalsCount := 0, 0, 0;
    var i := 0;
    while i < |rows|
      invariant 0 <= i <= |rows|
      invariant forall k :: 0 <= k < i ==> Readable(rows[k].entry)
      invariant affirmationsCount == FilledCount(rows[..i], Affirmations)
      invariant gratitudeCount == FilledCount(rows[..i], Gratitude)
      invariant goalsCount == FilledCount(rows[..i], Goals)
    {
      var e := rows[i].entry;
      if !Readable(e) {
        return ZeroSectionStats();
      }
      FilledCountSnoc(rows[..i], rows[i]);
      assert rows[..i + 1] == rows[..i] + [rows[i]];
      if Filled(e, Affirmations) { affirmationsCount := affirmationsCount + 1; }
      if Filled(e, Gratitude) { gratitudeCount := gratitudeCount + 1; }
      if Filled(e, Goals) { goalsCount := goalsCount + 1; }
      i := i + 1;
    }
    assert rows[..i] == rows;
    var total := |rows|;
    stats := SectionStats(
      SectionStat(affirmationsCount, Percent(affirmationsCount, total)),
      SectionStat(gratitudeCount, Percent(gratitudeCount, total)),
      SectionStat(goalsCount, Percent(goalsCount, total)),
      total);
  }

  lemma {:induction false} FilledCountSnoc(rows: seq<Row>, r: Row)
    requires forall i :: 0 <= i < |rows| ==> Readable(rows[i].entry)
    requires Readable(r.entry)
    ensures forall s :: FilledCount(rows + [r], s) == FilledCount(rows, s) + (if Filled(r.entry, s) then 1 else 0)
  {
    if rows == [] {
      assert [r][1..] == [];
    } else {
      FilledCountSnoc(rows[1..], r);
      assert (rows + [r])[1..] == rows[1..] + [r];
    }
  }

  /** Each section count is at most the number of rows and its rate is a
      percentage. */
  lemma SectionStatBounds(rows: seq<Row>, s: Section)
    requires forall i :: 0 <= i < |rows| ==> Readable(rows[i].entry)
    ensures SectionStatOf(rows, s).completedEntries <= |rows|
    ensures SectionStatOf(rows, s).completionRate <= 100
    ensures SectionStatOf(rows, s).completionRate == 100 <==>
      |rows| > 0 && 200 * FilledCount(rows, s) >= 199 * |rows|
  {
    PercentBounds(FilledCount(rows, s), |rows|);
  }

  /** Completing or reopening goals never changes the goals section count:
      only the goal texts decide it. */
  lemma {:induction false} GoalsCountIgnoresCompletion(rows: seq<Row>, rows': seq<Row>)
    requires |rows| == |rows'|
    requires forall i :: 0 <= i < |rows| ==> Readable(rows[i].entry) && Readable(rows'[i].entry)
    requires forall i :: 0 <= i < |rows| ==> SameGoalTexts(rows[i].entry.goals, rows'[i].entry.goals)
    ensures FilledCount(rows, Goals) == FilledCount(rows', Goals)
  {
    if rows != [] {
      GoalsCountIgnoresCompletion(rows[1..], rows'[1..]);
      SameTextsSameFilled(rows[0].entry, rows'[0].entry);
    }
  }

  /** One row: the goals section counts it exactly when it counts the row with
      the same goal texts. */
  lemma SameTextsSameFilled(e: Entry, e': Entry)
    requires Readable(e) && Readable(e')
    requires SameGoalTexts(e.goals, e'.goals)
    ensures Filled(e, Goals) == Filled(e', Goals)
  {
    var a, b := ArrayOrEmpty(e.goals).value, ArrayOrEmpty(e'.goals).value;
    assert |a| == |b| && forall k :: 0 <= k < |a| ==> a[k].text == b[k].text;
    if SomeGoalText(a) {
      var k :| 0 <= k < |a| && a[k].text != "" && !IsBlank(a[k].text);
      assert b[k].text == a[k].text;
    }
    if SomeGoalText(b) {
      var k :| 0 <= k < |b| && b[k].text != "" && !IsBlank(b[k].text);
      assert a[k].text == b[k].text;
    }
  }

  /** The two goal fields hold the same texts in the same places; only the
      completed flags may differ. */
  predicate SameGoalTexts(g: JsList<Goal>, g': JsList<Goal>) {
    match g
    case List(a) => g'.List? && |a| == |g'.elems| && forall k :: 0 <= k < |a| ==> a[k].text == g'.elems[k].text
    case Null => g'.Null?
    case Undefined => g'.Undefined?
    case NonList => g'.NonList?
  }
}
