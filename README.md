# Daily journal: entry store, session reducer, statistics and entry views

This project models the core of a mobile daily-journal app. Each day has at most one entry. An entry holds a list of goals (a text and a `completed` flag), a list of affirmations and a list of gratitude items. The model covers:

- **The entry store** (`JournalService`, module `JournalService`). The SQLite table `journal_entries`, keyed by its unique date column, is the map field of class `EntryStore`. Its methods model `createEntry` (INSERT OR REPLACE), `getEntry`, `updateEntry`, `deleteEntry`, the date-range query `getEntriesByDateRange` and the newest-first listing `getAllEntries`. `getAllEntries` takes the row limit as a parameter; the app's default of 50 is not built in. `countCompletedGoals` is the module-level function `CountCompletedGoals`. The writes are also given as a pure function `ApplyWrite` on the map. It is proved that every sequence of writes keeps all stored rows well formed.
- **The session state** (`JournalContext`). It covers:
  - the reducer `journalReducer`, as a function that returns the next state or reports that it throws;
  - the blank entry `createEmptyEntry`;
  - `loadEntryForDate` and `saveEntry`, as methods over the store.
- **The statistics engine** (`StatsService`). It covers the sums and rates, the weekly/monthly/yearly period stats, the current streak, the longest streak, the seven-day trend, the monthly breakdown and the per-section completion stats.
- **The views' logic** (`EntryPreview`, `TextInputSection`, `GoalsSection`, `TextSection`). It covers:
  - the badge of an entry card, its content preview and its empty state;
  - the compact card;
  - the fixed-size list of text inputs and its edit and clear handlers;
  - the goal and item text editors.

Modelling choices:

- **Dates** are day numbers: days since 0001-01-01 in the proleptic Gregorian calendar, where day 0 is a Monday (module `Calendar`). `YYYY-MM-DD` parsing is `NormalizeDate` over a year/month/day triple, and it accepts exactly the valid dates. The clock (`new Date()`) is a parameter `today`.
- **Array fields.** A field the code expects to be an array is a `JsList`:
  - an array;
  - `null`;
  - `undefined` (a missing field);
  - some other non-array value.

  Each JavaScript branch on these (`Array.isArray`, `||`, `?.`, a throwing `.map`/`.some`/`.length`) is modelled case by case.
- **Strings** are `seq<char>`, a sequence of Unicode scalar values rather than of UTF-16 code units. `trim()` removes exactly the ECMAScript whitespace and line-terminator characters.
- **Rounding.** `Math.round` of a non-negative ratio is rounding half up on integers. A percentage is a `nat`. The average goals per day is given in tenths.
- **NOT NULL columns.** `database.js` declares the three list columns `NOT NULL`. A write that would store a missing list therefore throws. It is modelled as a write that fails and changes nothing.
- **Explicit `null`.** A caller that passes an explicit `null` list stores the text `null`. This is the `Null` case of `JsList`, and the readers treat it as `JSON.parse` hands it back.

Some behaviour is modelled as the code has it, although it looks unintended:

- The reducer has no case for SET_SELECTED_DATE, SET_UNSAVED_CHANGES, UPDATE_AFFIRMATIONS, UPDATE_GRATITUDE or RESET_ENTRY. These actions return the state unchanged.
- As a result, `saveEntry` never clears the unsaved flag. `JournalContext.SaveEntry` states that the session state comes back as it was.
- Also as a result, the selected date never changes. `JournalContext.SelectedDateIsFixed` states this.

## Model

| member | source | states |
|---|---|---|
| JsValues.TrimStart | src/components/journal/TextInputSection.js:78 | drops a whitespace-only prefix and stops at a non-whitespace character |
| JsValues.TrimEnd | src/components/journal/TextInputSection.js:78 | drops a whitespace-only suffix and stops at a non-whitespace character |
| JsValues.BlankIffAllWhitespace | src/components/common/EntryPreview.js:27 | `s.trim() === ''` exactly when every character of `s` is JS whitespace |
| JsValues.NonWhitespaceIsNotBlank | src/components/common/EntryPreview.js:27 | a string holding a non-whitespace character is not blank |
| JsValues.RoundHalfUp | src/services/statsService.js:173 | the result is the nearest integer to `num/den`, a tie going up |
| JsValues.Percent | src/services/statsService.js:172-173 | 0 for no whole; otherwise the rounded `100·part/whole` |
| JsValues.PercentBounds | src/services/statsService.js:172-173 | a share of a whole is at most 100, and it is 100 exactly when at least 99.5% is done |
| JsValues.PercentExtremes | src/services/statsService.js:172-173 | nothing done is 0% and everything done is 100% |
| Calendar.DaysInMonth | src/services/statsService.js:53-54 | each month has 28 to 31 days, and February has 29 exactly in leap years |
| Calendar.NormalizeDate | src/services/statsService.js:9-22 | a day number is produced exactly for a valid calendar date |
| Calendar.NextDateIsNextDay | src/services/statsService.js:111 | the calendar successor of a valid date is a valid date one day number later |
| Calendar.StartOfWeek | src/services/statsService.js:32 | the week starts on a Monday on or before the date, within 7 days |
| Calendar.EndOfWeek | src/services/statsService.js:33 | the week ends on the Sunday six days after its Monday |
| Calendar.MonthEnd | src/services/statsService.js:53-54 | the month ends `DaysInMonth - 1` days after it starts |
| Calendar.MonthsTile | src/services/statsService.js:186-191 | each month starts the day after the previous one ends, and December ends the day before the next year |
| Calendar.DateWithinMonth | src/services/statsService.js:53-54 | a valid date lies within its own month and its own year |
| Calendar.NewYear2024WasMonday | src/services/statsService.js:32 | the weekday numbering is anchored correctly (2024-01-01 was a Monday) |
| JournalService.CompletedGoals | src/services/journalService.js:141-144 | the filter keeps every goal exactly when all are completed, and none exactly when none is |
| JournalService.CountCompletedGoals | src/services/journalService.js:141-144 | 0 for a non-array; otherwise at most the list length, and 0 exactly when no goal is completed |
| JournalService.CountDiffersAt | src/services/journalService.js:141-144 | two lists differing at one position have counts differing by what changed there |
| JournalService.ApplyWrite | src/services/journalService.js:5-28 | INSERT OR REPLACE / UPDATE / DELETE on the date key: the effect on that date; every other row unchanged; a write putting NULL into a NOT NULL column (src/services/database.js:15-17) fails and changes nothing |
| JournalService.WritesKeepCachesFresh | src/services/database.js:12-21 | after any sequence of writes, failed ones included, every row has all three lists and a cached `goals_completed` equal to its live count |
| JournalService.MaxOf | src/services/journalService.js:111 | the latest date of a non-empty set |
| JournalService.NewestFirstListsTable | src/services/journalService.js:111 | `ORDER BY date DESC` lists every row once, with its entry, on strictly descending dates |
| JournalService.RowsInRangeSelects | src/services/journalService.js:88-91 | the date filter keeps exactly the rows in `lo..hi`, keeping their order |
| JournalService.FilterListsRange | src/services/journalService.js:81-104 | filtering the ordered listing gives exactly the range's rows, newest first |
| JournalService.ReversedListing | src/services/statsService.js:292-294 | reading a newest-first listing backwards gives every stored date once, ascending |
| JournalService.AllDatesAscending | src/services/statsService.js:292-294 | `ORDER BY date ASC` gives each stored date once, strictly ascending |
| JournalService.PrefixIsMostRecent | src/services/journalService.js:106-125 | the first `n` rows of the listing are the `n` most recent ones |
| JournalService.EntryStore.GetEntry | src/services/journalService.js:30-54 | the row for the date when one is stored, and `null` (`None`) exactly when none is |
| JournalService.EntryStore.CreateEntry | src/services/journalService.js:5-28 | the table becomes `ApplyWrite(Create …)`; success exactly when all three lists are present, and then the row holds the lists and their count |
| JournalService.EntryStore.UpdateEntry | src/services/journalService.js:56-79 | the table becomes `ApplyWrite(Update …)`; an update with no row writes nothing and reports success |
| JournalService.EntryStore.DeleteEntry | src/services/journalService.js:127-138 | the table becomes `ApplyWrite(Delete …)`; the date has no row afterwards; reports success |
| JournalService.EntryStore.EntriesByDateRange | src/services/journalService.js:81-104 | exactly the rows dated from `start` to `end`, both included, newest first |
| JournalService.EntryStore.AllEntries | src/services/journalService.js:106-125 | `min(limit, rows)` rows (every row for a negative `limit`), newest first, and no unlisted row is newer than a listed one |
| StatsService.SumsVanish | src/services/statsService.js:157-166 | each `reduce` sum is 0 exactly when no row contributes to it: no row has completed goals, or no row sets a goal |
| StatsService.SumsOfAppend | src/services/statsService.js:157-166 | both `reduce` sums distribute over concatenation |
| StatsService.CompletedAtMostSet | src/services/statsService.js:157-166 | over rows with fresh cached counts, completed goals never exceed goals set |
| StatsService.CompletionRate | src/services/statsService.js:168-174 | 0 when no goals are set; otherwise the rounded completed/set percentage |
| StatsService.CompletionRateIsPercentage | src/services/statsService.js:168-174 | over fresh rows the rate is at most 100, and it is 100 exactly when 99.5% of goals are completed |
| StatsService.AverageGoalsPerDayTenths | src/services/statsService.js:176-180 | 0 for no rows; otherwise goals set per row, rounded to one decimal |
| StatsService.UniformAverage | src/services/statsService.js:176-180 | when every row sets `k` goals, the average is exactly `k` |
| StatsService.EntriesInRangeSelects | src/services/statsService.js:126-155 | no rows when a bound is not a valid date; otherwise exactly the range's rows, newest first |
| StatsService.OneRowPerDate | src/services/statsService.js:140-145 | rows on strictly descending dates cover as many dates as there are rows |
| StatsService.RangeHoldsAtMostSpan | src/services/statsService.js:140-145 | a range query returns at most as many rows as the range has days |
| StatsService.RangeSplits | src/services/statsService.js:140-145 | splitting a date span splits its row count and completed-goal sum |
| StatsService.RangeListingCount | src/services/statsService.js:126-155 | a range listing has one row per stored day of the range, is non-empty exactly when some day of the range is stored, and holds no more rows than the range has days |
| StatsService.PeriodSummary | src/services/statsService.js:37-44 | period totals count the stored days of the span (at most its length), and over fresh rows the rate is a percentage and completed goals do not exceed goals set |
| StatsService.WeeklyStats | src/services/statsService.js:30-49 | an invalid date gives empty stats and streak 0; otherwise the Monday-to-Sunday week's summary, at most 7 entries, and the streak `calculateStreak` gives: the `streak` days ending at the date all have entries, and below the cap of 365 the day before them has none |
| StatsService.WeekHoldsStreakDay | src/services/statsService.js:30-49 | a streak ending on a day puts at least one entry in that day's week |
| StatsService.StreakStartsAtAnchor | src/services/statsService.js:94-124 | a streak is under way exactly when its end date has an entry |
| StatsService.MonthlyStats | src/services/statsService.js:51-70 | an invalid date gives empty stats; otherwise the month's summary, at most days-in-month entries, non-empty when the date itself has an entry, and the month's average goals per day |
| StatsService.YearSpan | src/services/statsService.js:74-75 | the year spans from January 1 for `DaysInYear` days |
| StatsService.YearlyStats | src/services/statsService.js:72-92 | as for the month, over the calendar year, with at most `DaysInYear` entries and the year's average goals per day |
| StatsService.CalculateStreak | src/services/statsService.js:94-124 | the `k` days ending at the date all have entries, `k ≤ 365`, and below the cap the day before them has none; an invalid date gives 0 |
| StatsService.RunAtEnd | src/services/statsService.js:305-313 | the run of one-day steps ending at the last date has length 1 to the list length |
| StatsService.RunAtEndIsMaximal | src/services/statsService.js:305-313 | that run is a run, and no run ending at the last date is longer |
| StatsService.LongestRunIsLongest | src/services/statsService.js:288-323 | `LongestRun` is attained by some run and no run is longer |
| StatsService.LongestRunOfConsecutiveDays | src/services/statsService.js:288-323 | `n` consecutive days give a longest streak of `n`, with no cap |
| StatsService.LongestStreak | src/services/statsService.js:288-323 | the scan returns 0 for no dates, 1 when the first date is invalid, otherwise the longest run of the valid dates; never more than the number of dates |
| StatsService.ValidsSnoc | src/services/statsService.js:303-304 | an invalid date is skipped and a valid one is appended to the dates compared |
| StatsService.ExtendRun | src/services/statsService.js:306-313 | a next-day date extends the current streak, any other date restarts it at 1, and the longest is the larger of the old longest and the new current |
| StatsService.StoreLongestStreak | src/services/statsService.js:288-323 | over the table, the longest run of consecutive stored days: 0 exactly when the table is empty, and at most the number of rows |
| StatsService.TrendData | src/services/statsService.js:325-367 | seven points, oldest first, one per day up to `today`, each from that day's row; `[]` when a row in the window has null goals |
| StatsService.TrendRateIsPercentage | src/services/statsService.js:342 | a fresh row's rate is at most 100: 100 when all goals are completed, 0 when none is |
| StatsService.MonthlyBreakdown | src/services/statsService.js:182-209 | twelve records, January first, each the stats of its month of the year `new Date(year, month, 1)` denotes |
| StatsService.MonthsAddUp | src/services/statsService.js:182-209 | the first `n` monthly records add up to the span from January 1 to the end of month `n` |
| StatsService.NextMonth | src/services/statsService.js:186-193 | month `n` starts after month `n - 1` and adds its own record to the running totals |
| StatsService.AddMonth | src/services/statsService.js:190-199 | adding the next month's rows to the span before it gives the rows of the longer span |
| StatsService.BreakdownAddsUpToYear | src/services/statsService.js:182-209 | the twelve records' entries and completed goals sum to the yearly stats of the same year |
| StatsService.FilledCount | src/services/statsService.js:382-390 | the number of rows counting towards a section is at most the number of rows |
| StatsService.SectionCompletionStats | src/services/statsService.js:369-416 | all zero when some row has a non-array section; otherwise per section the count of rows with content and its share of all rows |
| StatsService.FilledCountSnoc | src/services/statsService.js:382-390 | each further row adds one to a section count exactly when it has content there |
| StatsService.SectionStatBounds | src/services/statsService.js:392-405 | a section count is at most the row count, and its rate is a percentage |
| StatsService.GoalsCountIgnoresCompletion | src/services/statsService.js:389 | completing or reopening goals never changes the goals-section count |
| StatsService.SameTextsSameFilled | src/services/statsService.js:389 | one row counts for goals exactly when a row with the same goal texts does |
| JournalContext.InitialState | src/context/JournalContext.js:6-12 | no entry, not loading, no error, nothing unsaved, selected date `today` |
| JournalContext.FreshSession | src/context/JournalContext.js:6-12 | in a fresh session a toggle throws, and the selected date stays `today` whatever is dispatched |
| JournalContext.EmptyDraft | src/context/JournalContext.js:29-37 | exactly three goals `{ text: '', completed: false }`, three `''` affirmations and three `''` gratitude items, with no date |
| JournalContext.Reduce | src/context/JournalContext.js:40-91 | per action type: throws exactly on a toggle with no entry or with non-array goals; unhandled types return the state unchanged; the effect of each handled type; goal edits set the unsaved flag and change nothing else of the session |
| JournalContext.ToggleKeepsTexts | src/context/JournalContext.js:73-78 | a toggle keeps length and texts and flips `completed` exactly at the index |
| JournalContext.ToggleTwiceRestores | src/context/JournalContext.js:73-78 | toggling the same index twice restores the goals |
| JournalContext.ToggleMovesCountByOne | src/context/JournalContext.js:73-78 | a toggle inside the list moves the completed count by exactly one |
| JournalContext.ReduceToggleTwice | src/context/JournalContext.js:73-86 | dispatching the same toggle twice restores the entry and leaves it marked unsaved |
| JournalContext.SelectedDateIsFixed | src/context/JournalContext.js:40-91 | no dispatched sequence changes `selectedDate` (SET_SELECTED_DATE has no case) |
| JournalContext.OnlyLoadingClearsUnsaved | src/context/JournalContext.js:40-91 | without SET_CURRENT_ENTRY, an unsaved flag once set stays set |
| JournalContext.LoadEntryForDate | src/context/JournalContext.js:101-120 | the current entry becomes the stored entry, or the blank entry stamped with the date; loading ends and the flag is cleared |
| JournalContext.SaveEntry | src/context/JournalContext.js:123-144 | saves exactly when there is an entry with unsaved changes whose lists are all present; updates an existing row or creates one; afterwards that date holds the entry; the session state comes back unchanged |
| EntryPreview.GetGoalsStats | src/components/common/EntryPreview.js:10-14 | `{0, 0}` for a non-array; otherwise the completed count and the list length |
| EntryPreview.BadgeShowsCachedCount | src/components/common/EntryPreview.js:10-14 | for a stored row the badge shows its `goals_completed` |
| EntryPreview.FilledIffNotBlank | src/components/common/EntryPreview.js:27 | `item && item.trim() !== ''` is "not blank" |
| EntryPreview.SomeFilled | src/components/common/EntryPreview.js:27 | true exactly when some item is not blank |
| EntryPreview.HasContent | src/components/common/EntryPreview.js:25-28 | true exactly for an array with a non-blank item |
| EntryPreview.FirstFilledIndex | src/components/common/EntryPreview.js:18-21 | the position of the first non-blank item; every earlier item is blank |
| EntryPreview.NoFilledItems | src/components/common/EntryPreview.js:18-19 | the filter is empty exactly when every item is blank |
| EntryPreview.FirstFilledItem | src/components/common/EntryPreview.js:18-21 | the filter's first element is the first non-blank item |
| EntryPreview.Shorten | src/components/common/EntryPreview.js:22 | a long preview is cut to `maxLength` plus `...`, a short one is kept, and the result has at most `maxLength + 3` characters |
| EntryPreview.ContentPreview | src/components/common/EntryPreview.js:16-23 | `''` exactly when there is no content, and at most `maxLength + 3` characters |
| EntryPreview.PreviewOfFirstItem | src/components/common/EntryPreview.js:16-23 | a shown preview is the shortened first non-blank item |
| EntryPreview.EmptyStateIffNothingShown | src/components/common/EntryPreview.js:109 | the empty state shows exactly when there are no goals and every affirmation and gratitude item is blank |
| EntryPreview.CompactGoalsStats | src/components/common/EntryPreview.js:127-130 | `{0, 0}` for null/undefined goals, a throw for a non-array object, otherwise the same stats as the full card |
| EntryPreview.CompactHasContent | src/components/common/EntryPreview.js:132-133 | the same content test as the full card, and a throw for a non-array object |
| EntryPreview.CompactSome | src/components/common/EntryPreview.js:132-133 | `item?.trim() !== ''` gives the same answer as the full card's test |
| TextInputSection.NormalizeItems | src/components/journal/TextInputSection.js:16-22 | exactly `numInputs` items: the given ones that fit, then `''`; equal to `Padded` |
| TextInputSection.PaddedContents | src/components/journal/TextInputSection.js:16-22 | the padded list keeps the items that fit and has `''` elsewhere |
| TextInputSection.PaddedIdempotent | src/components/journal/TextInputSection.js:16-22 | a list of the right length is kept as it is, and normalising twice is normalising once |
| TextInputSection.SetCopyAt | src/components/journal/TextInputSection.js:25-26 | the copy has the text at the index and every other item unchanged |
| TextInputSection.HandleTextChange | src/components/journal/TextInputSection.js:24-28 | the list handed up is the normalised list with the text at the index |
| TextInputSection.HandleClearItem | src/components/journal/TextInputSection.js:30-34 | the list handed up has `''` at the index and the same items elsewhere, and that item's clear button is disabled |
| TextInputSection.ClearEnabledIffVisibleText | src/components/journal/TextInputSection.js:76-78 | the clear button is enabled exactly when the item has a non-whitespace character |
| TextInputSection.ClearTwiceIsClearOnce | src/components/journal/TextInputSection.js:30-34 | clearing an already cleared item changes nothing |
| GoalsSection.UpdateGoalText | src/components/journal/GoalsSection.js:8-13 | the goal at the index gets the text and keeps its flag; every other goal is unchanged; an index outside the list changes nothing |
| GoalsSection.UpdateGoalTextIdempotent | src/components/journal/GoalsSection.js:8-13 | typing the same text again changes nothing |
| GoalsSection.UpdateGoalTextKeepsCount | src/components/journal/GoalsSection.js:8-13 | editing a text never changes the completed count |
| TextSection.UpdateItemText | src/components/journal/TextSection.js:15-20 | the item at the index becomes the text; every other item is unchanged; an index outside the list changes nothing |
| TextSection.UpdateItemTextIdempotent | src/components/journal/TextSection.js:15-20 | the same edit twice is the edit once |

## Left out

- SQLite, `async`/`await`, `getDatabase` and error logging are not modelled. The table is a map. Each query is a function or method on it. A `catch` is modelled only where it changes a result.
- `getDashboardStats` is not modelled; it only combines the weekly, monthly and yearly stats, `getOverallStats` and `getTrendData`.
- `getOverallStats` is not modelled. It runs its own aggregate query: a row count, a sum of `goals_completed`, and an average of per-entry completion rates. That average is a different quantity from the pooled `CompletionRate`. Its call to `getLongestStreak` is modelled as `StoreLongestStreak`.
- date-fns is not modelled. Dates are day numbers in the proleptic Gregorian calendar. Time zones, daylight saving time and the range limits of JS `Date` are not modelled. Any input date other than a year/month/day triple is not modelled either.
- Floating point is not modelled. Rates are integer percentages, and the average goals per day is an integer number of tenths.
- A JSON column that fails to parse is not modelled. Neither are strings or numbers where an array is expected, nor `null` items inside a list.
- `getYearlyStats`' `monthlyBreakdown` field is not modelled. That call passes a date where a year is expected. `MonthlyBreakdown` is modelled for its own year argument.
- `getMonthlyBreakdown`'s month names and `getTrendData`'s day names are not modelled; both are date formatting.
- The `id`, `created_at` and `updated_at` columns are not modelled, and neither is the `{ id, date }` that `createEntry` returns. The range query in `getEntriesInRange` selects only `goals` and `goals_completed`; the model's rows also carry their date.
- `getSectionCompletionStats` does not depend on the order of its rows, so the order is not modelled.
- The UI is not modelled: rendering, styles, navigation, and the `useEffect` that loads today's entry. Only the conditions and handlers listed above are modelled.
- EntryPreview.Shorten: measures and cuts the preview in Unicode scalar values. JavaScript's `length` and `substring` count UTF-16 code units, so text with characters outside the Basic Multilingual Plane (an emoji, say) is cut at a different place. A cut inside a surrogate pair cannot be expressed as a Dafny string at all.
- EntryPreview.ContentPreview: inherits `Shorten`'s measure. Its `maxLength` bound is in Unicode scalar values, not UTF-16 code units.
- TextInputSection.NormalizeItems: requires `numInputs >= 0`. A negative count makes the `pop` loop run forever on an empty list.
- TextInputSection.NormalizeItems: does not model the `items` prop being missing (it defaults to `[]`) or not an array.
- TextInputSection.HandleTextChange: requires an index inside the list. Only rendered rows call the handler. An assignment past the end would grow a JavaScript array.
- TextInputSection.HandleClearItem: requires an index inside the list, for the same reason.
