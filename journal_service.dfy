/** The entry store (`JournalService` over the `journal_entries` table): one row
    per calendar date, kept as a map from day number to entry, so the `UNIQUE`
    date column is the map's nature and INSERT OR REPLACE is a map update. Each
    row carries the denormalised `goals_completed` count, recomputed on every
    write. */
module JournalService {
  import opened JsValues
  import opened Calendar

  datatype Goal = Goal(text: string, completed: bool)

  /** A row of `journal_entries` as read back: the three JSON columns parsed and
      the cached `goals_completed`. */
  datatype Entry = Entry(
    goals: JsList<Goal>,
    affirmations: JsList<string>,
    gratitude: JsList<string>,
    goalsCompleted: nat)

  /** A row together with its date, as the ordered queries return it. */
  datatype Row = Row(date: Day, entry: Entry)

  // ---------------------------------------------------------------------------
  // countCompletedGoals
  // ---------------------------------------------------------------------------

  /** The goals marked completed, in list order. */
  function CompletedGoals(goals: seq<Goal>): (r: seq<Goal>)
    ensures |r| <= |goals|
    ensures |r| == |goals| <==> forall i :: 0 <= i < |goals| ==> goals[i].completed
    ensures |r| == 0 <==> forall i :: 0 <= i < |goals| ==> !goals[i].completed
  {
    if goals == [] then []
    else (if goals[0].completed then [goals[0]] else []) + CompletedGoals(goals[1..])
  }

  /** `countCompletedGoals(goals)`: how many goals are marked completed, and 0
      for anything that is not an array. */
  function CountCompletedGoals(goals: JsList<Goal>): (n: nat)
    ensures !goals.List? ==> n == 0
    ensures goals.List? ==> n <= |goals.elems|
    ensures goals.List? ==>
      (n == 0 <==> forall i :: 0 <= i < |goals.elems| ==> !goals.elems[i].completed)
    ensures goals.List? ==>
      (n == |goals.elems| <==> forall i :: 0 <= i < |goals.elems| ==> goals.elems[i].completed)
  {
    if goals.List? then |CompletedGoals(goals.elems)| else 0
  }

  /** Two goal lists that differ at most at position `i` have completed counts
      that differ by exactly what changed at `i`. */
  lemma {:induction false} CountDiffersAt(a: seq<Goal>, b: seq<Goal>, i: nat)
    requires |a| == |b| && i < |a|
    requires forall j :: 0 <= j < |a| && j != i ==> a[j] == b[j]
    ensures |CompletedGoals(b)| + (if a[i].completed then 1 else 0)
         == |CompletedGoals(a)| + (if b[i].completed then 1 else 0)
  {
    if i == 0 {
      assert a[1..] == b[1..];
    } else {
      CountDiffersAt(a[1..], b[1..], i - 1);
    }
  }

  // ---------------------------------------------------------------------------
  // The three writes, as a function of the table
  // ---------------------------------------------------------------------------

  /** The row `createEntry` and `updateEntry` write: the three lists and their
      freshly computed completed count. */
  function MakeEntry(goals: JsList<Goal>, affirmations: JsList<string>, gratitude: JsList<string>): Entry {
    Entry(goals, affirmations, gratitude, CountCompletedGoals(goals))
  }

  /** The cached count agrees with the live count of completed goals. */
  predicate CacheFresh(e: Entry) {
    e.goalsCompleted == CountCompletedGoals(e.goals)
  }

  predicate CachesFresh(m: map<Day, Entry>) {
    forall d :: d in m ==> CacheFresh(m[d])
  }

  /** The three lists can be written: the columns are `NOT NULL`, and a missing
      list would bind as SQL NULL. */
  predicate Storable(goals: JsList<Goal>, affirmations: JsList<string>, gratitude: JsList<string>) {
    !goals.Undefined? && !affirmations.Undefined? && !gratitude.Undefined?
  }

  /** A table the app can have written: every row has all three columns and a
      fresh cached count. */
  predicate WellFormed(m: map<Day, Entry>) {
    CachesFresh(m) && forall d :: d in m ==> Storable(m[d].goals, m[d].affirmations, m[d].gratitude)
  }

  datatype Write =
    | Create(date: Day, goals: JsList<Goal>, affirmations: JsList<string>, gratitude: JsList<string>)
    | Update(date: Day, goals: JsList<Goal>, affirmations: JsList<string>, gratitude: JsList<string>)
    | Delete(date: Day)

  /** The write throws: it would put SQL NULL into a `NOT NULL` column. An
      UPDATE that matches no row writes nothing and so cannot fail. */
  predicate WriteFails(m: map<Day, Entry>, w: Write) {
    (w.Create? || (w.Update? && w.date in m)) && !Storable(w.goals, w.affirmations, w.gratitude)
  }

  /** The table after one write: INSERT OR REPLACE on the unique date, UPDATE
      ... WHERE date = ?, or DELETE ... WHERE date = ?; a write that throws
      leaves the table as it was. */
  function ApplyWrite(m: map<Day, Entry>, w: Write): (m': map<Day, Entry>)
    ensures WriteFails(m, w) ==> m' == m
    ensures forall d :: d != w.date ==> (d in m' <==> d in m)
    ensures forall d :: d != w.date && d in m ==> m'[d] == m[d]
    ensures w.Create? && !WriteFails(m, w) ==>
      w.date in m' && m'[w.date] == MakeEntry(w.goals, w.affirmations, w.gratitude)
    ensures w.Update? ==> (w.date in m' <==> w.date in m)
    ensures w.Update? && w.date in m && !WriteFails(m, w) ==>
      m'[w.date] == MakeEntry(w.goals, w.affirmations, w.gratitude)
    ensures w.Delete? ==> w.date !in m'
  {
    if WriteFails(m, w) then m
    else match w
      case Create(d, g, a, r) => m[d := MakeEntry(g, a, r)]
      case Update(d, g, a, r) => if d in m then m[d := MakeEntry(g, a, r)] else m
      case Delete(d) => m - {d}
  }

  function ApplyAll(m: map<Day, Entry>, ws: seq<Write>): map<Day, Entry>
    decreases |ws|
  {
    if ws == [] then m else ApplyAll(ApplyWrite(m, ws[0]), ws[1..])
  }

  /** Whatever sequence of creates, updates and deletes runs, failed ones
      included, every stored row keeps all three columns and a cached completed
      count equal to its live count. */
  lemma {:induction false} WritesKeepCachesFresh(m: map<Day, Entry>, ws: seq<Write>)
    requires WellFormed(m)
    ensures WellFormed(ApplyAll(m, ws))
    decreases |ws|
  {
    if ws != [] {
      var m' := ApplyWrite(m, ws[0]);
      assert WellFormed(m');
      WritesKeepCachesFresh(m', ws[1..]);
    }
  }

  // ---------------------------------------------------------------------------
  // ORDER BY date DESC, and the WHERE date >= ? AND date <= ? filter
  // ---------------------------------------------------------------------------

  lemma NonEmpty(s: set<Day>)
    requires s != {}
    ensures exists x :: x in s
  {
    if forall x :: x !in s { assert false; }
  }

  lemma {:induction false} MaxExists(s: set<Day>)
    requires s != {}
    ensures exists x :: x in s && forall y :: y in s ==> y <= x
    decreases |s|
  {
    NonEmpty(s);
    var x :| x in s;
    var rest := s - {x};
    if rest == {} {
      OnlyElementIsMax(s, x);
    } else {
      assert |rest| < |s|;
      MaxExists(rest);
      var m :| m in rest && forall y :: y in rest ==> y <= m;
      AddToMax(s, x, m);
    }
  }

  lemma OnlyElementIsMax(s: set<Day>, x: Day)
    requires x in s && s - {x} == {}
    ensures forall y :: y in s ==> y <= x
  {
    forall y | y in s ensures y <= x { assert y !in s - {x}; }
  }

  lemma AddToMax(s: set<Day>, x: Day, m: Day)
    requires x in s && m in s - {x} && forall y :: y in s - {x} ==> y <= m
    ensures forall y :: y in s ==> y <= (if m < x then x else m)
    ensures (if m < x then x else m) in s
  {
    forall y | y in s ensures y <= (if m < x then x else m) { if y != x { assert y in s - {x}; } }
  }

  /** The latest of a non-empty set of dates. */
  function MaxOf(s: set<Day>): (x: Day)
    requires s != {}
    ensures x in s && forall y :: y in s ==> y <= x
  {
    MaxExists(s);
    var x :| x in s && forall y :: y in s ==> y <= x; x
  }

  /** The rows of a table listed newest first, each with its stored entry. */
  ghost predicate ListsNewestFirst(m: map<Day, Entry>, rows: seq<Row>) {
    && |rows| == |m|
    && (forall i :: 0 <= i < |rows| ==> rows[i].date in m && m[rows[i].date] == rows[i].entry)
    && (forall d :: d in m ==> Row(d, m[d]) in rows)
    && (forall i, j :: 0 <= i < j < |rows| ==> rows[i].date > rows[j].date)
  }

  /** Listing the latest row ahead of a listing of the others lists the table. */
  lemma PrependLatest(m: map<Day, Entry>, d: Day, tail: seq<Row>)
    requires d in m && forall e :: e in m ==> e <= d
    requires ListsNewestFirst(m - {d}, tail)
    ensures ListsNewestFirst(m, [Row(d, m[d])] + tail)
  {
    assert |m - {d}| == |m| - 1;
    PrependFromTable(m, d, tail);
    PrependDescending(m, d, tail);
    PrependCovers(m, d, tail);
  }

  lemma PrependFromTable(m: map<Day, Entry>, d: Day, tail: seq<Row>)
    requires d in m
    requires forall i :: 0 <= i < |tail| ==> tail[i].date in m - {d} && (m - {d})[tail[i].date] == tail[i].entry
    ensures forall i :: 0 <= i < |tail| + 1 ==>
      ([Row(d, m[d])] + tail)[i].date in m && m[([Row(d, m[d])] + tail)[i].date] == ([Row(d, m[d])] + tail)[i].entry
  {
    var rows := [Row(d, m[d])] + tail;
    forall i | 0 <= i < |rows| ensures rows[i].date in m && m[rows[i].date] == rows[i].entry {
      if i > 0 {
        assert rows[i] == tail[i - 1];
      }
    }
  }

  lemma PrependDescending(m: map<Day, Entry>, d: Day, tail: seq<Row>)
    requires d in m && forall e :: e in m ==> e <= d
    requires forall i :: 0 <= i < |tail| ==> tail[i].date in m - {d}
    requires forall i, j :: 0 <= i < j < |tail| ==> tail[i].date > tail[j].date
    ensures forall i, j :: 0 <= i < j < |tail| + 1 ==>
      ([Row(d, m[d])] + tail)[i].date > ([Row(d, m[d])] + tail)[j].date
  {
    var rows := [Row(d, m[d])] + tail;
    forall i, j | 0 <= i < j < |rows| ensures rows[i].date > rows[j].date {
      assert rows[j] == tail[j - 1];
      if i > 0 { assert rows[i] == tail[i - 1]; }
    }
  }

  lemma PrependCovers(m: map<Day, Entry>, d: Day, tail: seq<Row>)
    requires d in m
    requires forall e :: e in m - {d} ==> Row(e, (m - {d})[e]) in tail
    ensures forall e :: e in m ==> Row(e, m[e]) in [Row(d, m[d])] + tail
  {
    var rows := [Row(d, m[d])] + tail;
    forall e | e in m ensures Row(e, m[e]) in rows {
      if e != d {
        assert e in m - {d};
        var k :| 0 <= k < |tail| && tail[k] == Row(e, m[e]);
        assert rows[k + 1] == tail[k];
      } else {
        assert rows[0] == Row(e, m[e]);
      }
    }
  }

  /** Every row of the table, newest first: `ORDER BY date DESC`. */
  function NewestFirst(m: map<Day, Entry>): (rows: seq<Row>)
    ensures |rows| == |m|
    decreases |m|
  {
    if |m| == 0 then []
    else
      assert m.Keys != {} by { assert |m.Keys| == |m|; }
      var d := MaxOf(m.Keys);
      [Row(d, m[d])] + NewestFirst(m - {d})
  }

  /** `NewestFirst` lists every row of the table exactly once, each with its
      stored entry, on strictly descending dates. */
  lemma {:induction false} NewestFirstListsTable(m: map<Day, Entry>)
    ensures ListsNewestFirst(m, NewestFirst(m))
    decreases |m|
  {
    if |m| != 0 {
      assert m.Keys != {} by { assert |m.Keys| == |m|; }
      var d := MaxOf(m.Keys);
      NewestFirstListsTable(m - {d});
      PrependLatest(m, d, NewestFirst(m - {d}));
    }
  }

  /** `WHERE date >= lo AND date <= hi`, keeping the order of `rows`. */
  function RowsInRange(rows: seq<Row>, lo: Day, hi: Day): seq<Row> {
    if rows == [] then []
    else
      var rest := RowsInRange(rows[1..], lo, hi);
      if lo <= rows[0].date <= hi then [rows[0]] + rest else rest
  }

  /** The filter keeps exactly the rows dated from `lo` to `hi`, and keeps a
      newest-first order. */
  lemma {:induction false} RowsInRangeSelects(rows: seq<Row>, lo: Day, hi: Day)
    ensures forall i :: 0 <= i < |RowsInRange(rows, lo, hi)| ==>
      RowsInRange(rows, lo, hi)[i] in rows && lo <= RowsInRange(rows, lo, hi)[i].date <= hi
    ensures forall x :: x in rows && lo <= x.date <= hi ==> x in RowsInRange(rows, lo, hi)
    ensures (forall i, j :: 0 <= i < j < |rows| ==> rows[i].date > rows[j].date) ==>
      forall i, j :: 0 <= i < j < |RowsInRange(rows, lo, hi)| ==>
        RowsInRange(rows, lo, hi)[i].date > RowsInRange(rows, lo, hi)[j].date
  {
    if rows != [] {
      RowsInRangeSelects(rows[1..], lo, hi);
      var rest := RowsInRange(rows[1..], lo, hi);
      assert forall x :: x in rows ==> x == rows[0] || x in rows[1..];
      if lo <= rows[0].date <= hi {
        var r := [rows[0]] + rest;
        assert forall i :: 1 <= i < |r| ==> r[i] == rest[i - 1];
      }
    }
  }

  /** The dates of `rows` in reverse order. */
  function ReversedDates(rows: seq<Row>): (ds: seq<Day>)
    ensures |ds| == |rows|
    ensures forall i :: 0 <= i < |rows| ==> ds[i] == rows[|rows| - 1 - i].date
  {
    if rows == [] then [] else ReversedDates(rows[1..]) + [rows[0].date]
  }

  /** `rows` lists exactly the rows of the table dated from `lo` to `hi`, both
      included, newest first. */
  ghost predicate ListsRange(m: map<Day, Entry>, lo: Day, hi: Day, rows: seq<Row>) {
    && (forall i :: 0 <= i < |rows| ==>
          lo <= rows[i].date <= hi && rows[i].date in m && m[rows[i].date] == rows[i].entry)
    && (forall d :: lo <= d <= hi && d in m ==> Row(d, m[d]) in rows)
    && (forall i, j :: 0 <= i < j < |rows| ==> rows[i].date > rows[j].date)
  }

  /** Filtering a newest-first listing of the table by date lists that range. */
  lemma FilterListsRange(m: map<Day, Entry>, lo: Day, hi: Day)
    ensures ListsRange(m, lo, hi, RowsInRange(NewestFirst(m), lo, hi))
  {
    NewestFirstListsTable(m);
    RowsInRangeSelects(NewestFirst(m), lo, hi);
  }

  /** Reading a newest-first listing backwards gives the dates oldest first. */
  lemma {:induction false} ReversedListing(m: map<Day, Entry>, rows: seq<Row>, ds: seq<Day>)
    requires ListsNewestFirst(m, rows)
    requires |ds| == |rows| && forall i :: 0 <= i < |rows| ==> ds[i] == rows[|rows| - 1 - i].date
    ensures |ds| == |m|
    ensures forall d :: d in ds <==> d in m
    ensures forall i, j :: 0 <= i < j < |ds| ==> ds[i] < ds[j]
  {
    forall d | d in m ensures d in ds {
      var k :| 0 <= k < |rows| && rows[k] == Row(d, m[d]);
      assert ds[|rows| - 1 - k] == d;
    }
    forall d | d in ds ensures d in m {
      var k :| 0 <= k < |ds| && ds[k] == d;
      assert rows[|rows| - 1 - k].date == d;
    }
    forall i, j | 0 <= i < j < |ds| ensures ds[i] < ds[j] {
      assert ds[i] == rows[|rows| - 1 - i].date && ds[j] == rows[|rows| - 1 - j].date;
    }
  }

  /** `SELECT date FROM journal_entries ORDER BY date ASC`. */
  function AllDatesAscending(m: map<Day, Entry>): (ds: seq<Day>)
    ensures |ds| == |m|
    ensures forall d :: d in ds <==> d in m
    ensures forall i, j :: 0 <= i < j < |ds| ==> ds[i] < ds[j]
  {
    var rows := NewestFirst(m);
    var ds := ReversedDates(rows);
    NewestFirstListsTable(m);
    ReversedListing(m, rows, ds);
    ds
  }

  /** The first `n` rows of a newest-first listing are the `n` most recent
      rows, newest first. */
  lemma {:induction false} PrefixIsMostRecent(m: map<Day, Entry>, rows: seq<Row>, n: nat, p: seq<Row>)
    requires ListsNewestFirst(m, rows) && n <= |rows| && p == rows[..n]
    ensures |p| == n
    ensures forall i :: 0 <= i < |p| ==> p[i].date in m && m[p[i].date] == p[i].entry
    ensures forall i, j :: 0 <= i < j < |p| ==> p[i].date > p[j].date
    ensures forall d :: d in m && Row(d, m[d]) !in p ==> forall i :: 0 <= i < |p| ==> d < p[i].date
  {
    assert forall i :: 0 <= i < |p| ==> p[i] == rows[i];
    forall d, i | d in m && Row(d, m[d]) !in p && 0 <= i < |p|
      ensures d < p[i].date
    {
      var k :| 0 <= k < |rows| && rows[k] == Row(d, m[d]);
    }
  }

  // ---------------------------------------------------------------------------
  // The store
  // ---------------------------------------------------------------------------

  class EntryStore {
    /** The `journal_entries` table, keyed by its unique date column. */
    var entries: map<Day, Entry>

    ghost predicate Valid()
      reads this
    {
      WellFormed(entries)
    }

    constructor ()
      ensures Valid() && entries == map[]
    {
      entries := map[];
    }

    /** `getEntry(date)`: the row for that date, or `null`. */
    function GetEntry(date: Day): (r: Option<Entry>)
      reads this
      ensures r.Some? <==> date in entries
      ensures r.Some? ==> r.value == entries[date]
    {
      if date in entries then Some(entries[date]) else None
    }

    /** `createEntry`: insert or replace the row for `date`; `ok` is false
        when the call throws because a list is missing. */
    method CreateEntry(date: Day, goals: JsList<Goal>, affirmations: JsList<string>, gratitude: JsList<string>)
      returns (ok: bool)
      requires Valid()
      modifies this
      ensures Valid()
      ensures ok <==> Storable(goals, affirmations, gratitude)
      ensures entries == ApplyWrite(old(entries), Create(date, goals, affirmations, gratitude))
      ensures ok ==> GetEntry(date) == Some(Entry(goals, affirmations, gratitude, CountCompletedGoals(goals)))
    {
      if !Storable(goals, affirmations, gratitude) {
        return false;
      }
      entries := entries[date := MakeEntry(goals, affirmations, gratitude)];
      ok := true;
    }

    /** `updateEntry`: rewrite the row for `date` if there is one, reporting
        success, including when there is no row; `ok` is false when the call
        throws because a list is missing. */
    method UpdateEntry(date: Day, goals: JsList<Goal>, affirmations: JsList<string>, gratitude: JsList<string>)
      returns (ok: bool)
      requires Valid()
      modifies this
      ensures Valid()
      ensures ok <==> date !in old(entries) || Storable(goals, affirmations, gratitude)
      ensures entries == ApplyWrite(old(entries), Update(date, goals, affirmations, gratitude))
      ensures date !in old(entries) ==> entries == old(entries)
    {
      if date in entries {
        if !Storable(goals, affirmations, gratitude) {
          return false;
        }
        entries := entries[date := MakeEntry(goals, affirmations, gratitude)];
      }
      ok := true;
    }

    /** `deleteEntry`: remove the row for `date`, if any; always reports success. */
    method DeleteEntry(date: Day) returns (ok: bool)
      requires Valid()
      modifies this
      ensures Valid() && ok
      ensures entries == ApplyWrite(old(entries), Delete(date))
      ensures GetEntry(date) == None
    {
      entries := entries - {date};
      ok := true;
    }

    /** `getEntriesByDateRange(start, end)`: exactly the rows dated from `start`
        to `end`, both included, newest first. */
    function EntriesByDateRange(start: Day, end: Day): (rows: seq<Row>)
      reads this
      ensures ListsRange(entries, start, end, rows)
    {
      FilterListsRange(entries, start, end);
      RowsInRange(NewestFirst(entries), start, end)
    }

    /** `getAllEntries(limit)`: at most `limit` rows (all of them for a negative
        limit, as SQLite's LIMIT reads it), the most recent ones, newest first. */
    function AllEntries(limit: int): (rows: seq<Row>)
      reads this
      ensures |rows| == if 0 <= limit < |entries| then limit else |entries|
      ensures forall i :: 0 <= i < |rows| ==> rows[i].date in entries && entries[rows[i].date] == rows[i].entry
      ensures forall i, j :: 0 <= i < j < |rows| ==> rows[i].date > rows[j].date
      ensures forall d :: d in entries && Row(d, entries[d]) !in rows ==>
        forall i :: 0 <= i < |rows| ==> d < rows[i].date
    {
      var all := NewestFirst(entries);
      NewestFirstListsTable(entries);
      if 0 <= limit < |all| then
        PrefixIsMostRecent(entries, all, limit, all[..limit]);
        all[..limit]
      else
        all
    }
  }
}
