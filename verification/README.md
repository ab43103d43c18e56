# NIFTY MidSmallcap 400 market breadth, modelled in Dafny

This project models MBI, a pipeline that keeps a daily market-breadth ledger for the roughly 400 stocks of the NIFTY MidSmallcap 400 index. Every trading day the pipeline runs these steps:

- It downloads each stock's daily OHLCV bars from Yahoo Finance and merges them into the stock's stored history, keeping the last bar per date in date order.
- It consolidates one snapshot row per stock for the day. A row holds the first bar of that date, the four simple moving averages (10, 20, 50 and 200 bars, with partial windows allowed) and the 52-week high and low. The 52-week values come from the last 252 bars dated on or before the day.
- It reduces the snapshot to sixteen breadth metrics:
  - the share of stocks at 52-week highs and lows;
  - the share up or down more than 4.5 %, and the 4.5 ratio with its 0.0 and 99.99 sentinels;
  - the share above and below each moving average;
  - the raw counts above the 20- and 50-bar averages.
- It upserts those metrics by date into the ledger.

Around this core the model also covers:
- the NSE trading calendar: weekends, holidays, the walks to the next and previous trading day with their 30-step limit, and range enumeration;
- IST/UTC handling as a fixed +05:30 offset, and the market-hours test;
- data validation and row cleaning;
- the corporate-action and volume-spike detectors, with their report counters;
- the human-readable size ladder for files and directories;
- the orchestration in `main.py`: the one-day run, the historical initialisation and the incremental catch-up. Each run is modelled as the trace of steps it takes.

Representation choices:
- Dates are Python `toordinal()` day numbers.
- Datetimes are a day number, a second of the day and an optional zone, so a naive and an aware datetime are distinct values.
- Prices and volumes are exact reals. A pandas NaN or missing cell is `None`.
- Float division by zero is `Numeric.Ext`: finite, plus or minus infinity, or NaN.
- The network, the file system, the clock and the holiday library are parameters:
  - `Calendar.HolidayLibrary` is year to holiday day numbers.
  - `Pipeline.Effects` says which fetches, consolidations and breadth computations succeed.
  - `now` is an argument wherever the source reads the clock.

Modules follow the source files:

| module | file |
|---|---|
| Civil | calendar arithmetic and date text |
| Clock | `src/core/timezone_handler.py` |
| Calendar | `src/utils/holiday_checker.py` |
| Fetcher | `src/fetchers/yfinance_fetcher.py` |
| Consolidator | `src/processors/date_consolidator.py` |
| Breadth | `src/processors/breadth_calculator.py` |
| Ledger | `src/processors/breadth_calculator.py` |
| Validator | `src/processors/data_validator.py` |
| Corporate | `src/utils/corporate_actions.py` |
| Sizes | `src/utils/file_manager.py` |
| Pipeline | `src/main.py` |
| Config | `src/core/config.py` |

Numeric, NanStats, Frames, Seqs and Wrappers hold the shared pandas-like building blocks: sums and means, NaN-skipping aggregates, rolling means, stable sort by a key, keep-last de-duplication, and boolean-mask filtering.

`MIN_VALID_STOCKS = 350` (`src/core/config.py:25`) is enforced in one place only: the count of successful fetches in the one-day run (`src/main.py:193-195`). `validate_consolidated_data` rejects a snapshot with fewer than 350 rows (`src/processors/data_validator.py:97-98`), but `main.py` imports it and never calls it, and `consolidate_date` (`src/processors/date_consolidator.py:133-140`) applies no minimum. `Consolidator.ConsolidateDate` therefore returns any number of rows, `Validator.ValidateConsolidated` is modelled on its own, and `Pipeline.AfterFetch` gates on the fetch count.

## Model

| member | source | states |
|---|---|---|
| Civil.FromOrdinal | src/utils/holiday_checker.py:107-113 | converting a day number to a calendar date gives a valid date whose day number is the input (`date.fromordinal` inverts `toordinal`) |
| Civil.YearInRange | src/core/timezone_handler.py:178 | every day number Python supports (1 to 3652059) falls in a year between 1 and 9999, so the year fits four zero-padded digits |
| Civil.Weekday | src/utils/holiday_checker.py:107-108 | `weekday()` lies in 0..6 |
| Civil.WeekdayPeriodic | src/utils/holiday_checker.py:107-108 | weekdays repeat every seven days |
| Civil.UnixEpochIsThursday | src/utils/holiday_checker.py:107-108 | 1970-01-01 is day 719163 and a Thursday (weekday 3), pinning the weekday formula to Python's |
| Civil.FormatIso | src/core/timezone_handler.py:173-178 | `%Y-%m-%d` is ten characters with dashes at positions 4 and 7 |
| Civil.ParseIso | src/core/timezone_handler.py:173-178 | only ten-character text parses as a date |
| Civil.ParseFormat | src/core/timezone_handler.py:173-178 | parsing the rendered date gives the day number back |
| Civil.FormatInjective | src/core/timezone_handler.py:173-178 | distinct days render to distinct file names |
| Clock.FromWall | src/core/timezone_handler.py:140-142 | splitting a wall-clock second count into day and time of day preserves it and the zone |
| Clock.AssumeZone | src/core/timezone_handler.py:36-38 | `replace(tzinfo=z)` on a naive value keeps day and time and attaches a zone; an aware value is left alone |
| Clock.AsTimeZone | src/core/timezone_handler.py:40-41 | `astimezone(z)` keeps the instant and switches the zone |
| Clock.InIst | src/core/timezone_handler.py:83-87 | a naive datetime is read as IST; an aware one is converted to IST at the same instant |
| Clock.ReplaceTime | src/core/timezone_handler.py:90-93 | `replace(hour, minute, second, microsecond=0)` changes the time of day only |
| Clock.AddDays | src/core/timezone_handler.py:141 | adding whole days moves the wall clock by whole days and keeps time and zone |
| Clock.SubDays | src/core/timezone_handler.py:141 | subtracting days is the mirror image |
| Clock.LessEq | src/utils/holiday_checker.py:270 | `<=` between datetimes raises exactly when one side is naive and the other aware |
| Clock.IstToUtc | src/core/timezone_handler.py:21-41 | the result is UTC; a naive input is read as IST (wall clock minus 5:30); an aware input keeps its instant |
| Clock.UtcToIst | src/core/timezone_handler.py:44-64 | the result is IST; a naive input is read as UTC (wall clock plus 5:30); an aware input keeps its instant |
| Clock.IstUtcRoundTrip | src/core/timezone_handler.py:21-64 | IST or naive to UTC and back restores the datetime, tagged IST |
| Clock.UtcIstRoundTrip | src/core/timezone_handler.py:21-64 | UTC or naive to IST and back restores the datetime, tagged UTC |
| Clock.MarketCloseInUtc | src/core/timezone_handler.py:32-34 | 15:30 IST is 10:00 UTC of the same day, the docstring's example |
| Clock.IsMarketHours | src/core/timezone_handler.py:67-95 | open exactly when the IST time of day lies in [09:15, 15:30], both ends included |
| Clock.MarketHoursIgnoresDate | src/core/timezone_handler.py:77-95 | the same clock time on any other day, weekend or holiday, gets the same answer |
| Clock.PreviousTradingDate | src/core/timezone_handler.py:118-142 | midnight IST of the IST calendar day before the input, between one and two days earlier than the input instant |
| Clock.NormalizeToDate | src/core/timezone_handler.py:145-160 | midnight IST of the input's IST day, at most one day before the input instant |
| Clock.NormalizeIdempotent | src/core/timezone_handler.py:145-160 | normalising twice is normalising once |
| Clock.TradingDateRange | src/core/timezone_handler.py:98-115 | the range runs from 00:00 IST `days_back` days before today to 23:59:59 IST today, and is ordered when `days_back` is non-negative |
| Clock.FormatDateForFilename | src/core/timezone_handler.py:163-178 | the file name is ten characters and parses back to the datetime's IST calendar date |
| Calendar.SortedSet | src/utils/holiday_checker.py:50-51 | `sorted(set(xs))` is strictly ascending and holds exactly the members of xs |
| Calendar.NseHolidays | src/utils/holiday_checker.py:18-55 | the year's holiday list is strictly ascending; a day is on it exactly when the library or the (always empty) special list names it |
| Calendar.NseHolidaysCanonical | src/utils/holiday_checker.py:39-51 | the list depends only on which days the library names, not on order or repetition |
| Calendar.MatchesHolidayIff | src/utils/holiday_checker.py:116-123 | an aware midnight matches a holiday exactly when it is an IST midnight on a listed day; a UTC midnight never matches |
| Calendar.IsTradingDay | src/utils/holiday_checker.py:89-125 | weekends never trade; a naive or IST date trades exactly when it is a weekday that is not a holiday of its year; a UTC-aware date trades exactly on weekdays |
| Calendar.TradingDayIgnoresTime | src/utils/holiday_checker.py:116-121 | the time of day never changes the answer |
| Calendar.WeekendNeverTrades | src/utils/holiday_checker.py:107-110 | Saturdays and Sundays are never trading days |
| Calendar.WalkForward | src/utils/holiday_checker.py:146-161 | the walk stops 1 to 31 days ahead with no trading day skipped; a day found within 30 extra steps is a trading day at midnight; otherwise the day 31 ahead comes back with its time unchanged |
| Calendar.WalkBackward | src/utils/holiday_checker.py:182-197 | the same, backwards |
| Calendar.NextTradingDay | src/utils/holiday_checker.py:128-161 | the result is 1 to 31 days after the input (naive read as IST) with no trading day strictly between; if found in time it is a trading day at midnight, else it is exactly 31 days ahead |
| Calendar.PreviousTradingDay | src/utils/holiday_checker.py:164-197 | the mirror image: 1 to 31 days before, the nearest earlier trading day at midnight when found in time |
| Calendar.EnumerateRange | src/utils/holiday_checker.py:267-275 | the loop raises exactly on mixed naive and aware bounds; otherwise it lists exactly the days start, start+1, ... that are `<= end` and pass the test, ascending, and nothing when start is after end |
| Calendar.TradingDaysInRange | src/utils/holiday_checker.py:256-275 | the trading days of [start, end], each once, ascending; empty when start > end; raises on mixed naive and aware bounds |
| Seqs.SortBy | src/processors/date_consolidator.py:31-32 | `sort_values` by a key gives a sorted permutation of the rows |
| Seqs.SortMembers | src/processors/date_consolidator.py:31-32 | sorting neither adds nor drops rows |
| Seqs.SortOfSorted | src/processors/date_consolidator.py:53-55 | sorting sorted rows changes nothing |
| Seqs.SortUniqueIsStrict | src/fetchers/yfinance_fetcher.py:200-204 | once dates are unique, sorting makes them strictly ascending |
| Seqs.Upto | src/processors/date_consolidator.py:58-59 | the `Date <= ref` filter keeps only rows at or before the bound |
| Seqs.UptoMembers | src/processors/date_consolidator.py:58-59 | it keeps every such row and nothing else |
| Seqs.UptoOfSort | src/processors/date_consolidator.py:55-59 | filtering by the bound commutes with sorting |
| Seqs.SortedUptoIgnoresLaterRows | src/processors/date_consolidator.py:55-59 | rows dated after the bound never change the sorted, filtered rows |
| Seqs.DedupeLast | src/fetchers/yfinance_fetcher.py:200-201 | `drop_duplicates(keep="last")` leaves unique keys, the same set of keys, only original rows, in their original order |
| Seqs.DedupeKeepsLast | src/fetchers/yfinance_fetcher.py:200-201 | the last row of each key survives |
| Seqs.DedupeSurvivorIsLast | src/fetchers/yfinance_fetcher.py:200-201 | and it is the only survivor of its key |
| Seqs.DedupeOfUnique | src/processors/data_validator.py:161 | rows with distinct keys are left untouched |
| Seqs.Filter | src/processors/data_validator.py:147-158 | a boolean mask keeps an order-preserving subsequence whose rows all pass |
| Seqs.FilterMembers | src/processors/data_validator.py:147-158 | it keeps exactly the passing rows |
| Numeric.MaxOf | src/processors/date_consolidator.py:67 | the maximum is one of the values and no value exceeds it |
| Numeric.MinOf | src/processors/date_consolidator.py:68 | the minimum is one of the values and no value is below it |
| Numeric.Mean | src/processors/date_consolidator.py:36 | a mean lies between the smallest and the largest value |
| Numeric.WindowStart | src/processors/date_consolidator.py:36 | the trailing window at row i starts at or before i and spans min(i+1, w) rows |
| Numeric.TrailingWindow | src/processors/date_consolidator.py:36 | the window `rolling(window=w, min_periods=1)` sees at row i has min(i+1, w) rows and ends with row i |
| Numeric.TrailingWindowIgnoresLaterRows | src/processors/date_consolidator.py:36 | the window at row i depends only on rows up to i |
| Numeric.Round2 | src/processors/breadth_calculator.py:46-47 | two-place rounding lands within half a hundredth of the input on a multiple of 0.01 |
| Numeric.Round2InPercentRange | src/processors/breadth_calculator.py:46-47 | rounding keeps a percentage within [0, 100] |
| Numeric.TruncToInt | src/utils/corporate_actions.py:152-153 | `int(x)` truncates toward zero |
| Numeric.Div | src/utils/corporate_actions.py:144 | a float quotient is finite exactly for a non-zero divisor (and then times the divisor gives the dividend), and NaN exactly for 0/0 |
| Numeric.AbsExt | src/utils/corporate_actions.py:46 | `abs` keeps finiteness and NaN and gives the magnitude of a finite value |
| NanStats.Present | src/processors/date_consolidator.py:36 | the non-missing values are never more than the cells |
| NanStats.PresentMembers | src/processors/date_consolidator.py:36 | they are exactly the present values; none exactly when every cell is missing |
| NanStats.NanMean | src/processors/date_consolidator.py:36 | `mean()` is missing exactly when every cell is, and otherwise lies between two present values |
| NanStats.NanMax | src/processors/date_consolidator.py:67 | `max()` skips NaN: missing exactly when every cell is, else a present value no present value exceeds |
| NanStats.NanMin | src/processors/date_consolidator.py:68 | `min()` skips NaN symmetrically |
| NanStats.NanMeanOfComplete | src/processors/date_consolidator.py:36 | without missing cells the NaN-skipping mean is the plain mean |
| NanStats.PresentOfComplete | src/processors/date_consolidator.py:36 | without missing cells every value is present |
| NanStats.RollingMean | src/processors/date_consolidator.py:36 | the rolling mean at a row with a close is defined (partial windows allowed) |
| NanStats.RollingMeanIgnoresLaterRows | src/processors/date_consolidator.py:36 | the rolling mean at row i depends only on rows up to i |
| NanStats.RollingMeanOfShortPrefix | src/processors/date_consolidator.py:36 | with fewer than w rows so far it is the mean of all of them |
| NanStats.FFill | src/utils/corporate_actions.py:42 | padding keeps the column's length |
| NanStats.FFillSpec | src/utils/corporate_actions.py:42 | present values stay, a gap takes the previous padded value, a leading gap stays missing |
| NanStats.RatioMinusOne | src/utils/corporate_actions.py:42 | `x / x.shift(1) - 1` is the relative change for a non-zero base and NaN for 0/0 |
| NanStats.QuotientShift | src/utils/corporate_actions.py:42 | cur/prev - 1 equals (cur - prev)/prev |
| NanStats.PctChange | src/utils/corporate_actions.py:42 | `pct_change()` is NaN at the first row |
| NanStats.PctChangeOfPresent | src/utils/corporate_actions.py:42 | between two present closes it is the plain relative change |
| Frames.Closes | src/processors/date_consolidator.py:36 | the Close column has one cell per row, in row order |
| Frames.Highs | src/processors/date_consolidator.py:67 | the High column, one cell per row |
| Frames.Lows | src/processors/date_consolidator.py:68 | the Low column, one cell per row |
| Frames.Volumes | src/utils/corporate_actions.py:143 | the Volume column, one cell per row |
| Frames.ClosesOfPrefix | src/processors/date_consolidator.py:36 | the column of a prefix is the prefix of the column |
| Fetcher.NormalizeSymbol | src/fetchers/yfinance_fetcher.py:53-54 | the ticker ends with ".NS", extends the input, and equals it exactly when the input already ended with ".NS" |
| Fetcher.NormalizeIdempotent | src/fetchers/yfinance_fetcher.py:53-54 | normalising twice is normalising once |
| Fetcher.StripSuffix | src/fetchers/yfinance_fetcher.py:161 | `replace(".NS", "")` never lengthens the name |
| Fetcher.StripWithoutSuffix | src/fetchers/yfinance_fetcher.py:185 | a name without ".NS" is left alone |
| Fetcher.StripOfAppendedSuffix | src/fetchers/yfinance_fetcher.py:225 | stripping after appending ".NS" equals stripping the bare name |
| Fetcher.StripOfNormalized | src/fetchers/yfinance_fetcher.py:53-54 | the file name of the normalised ticker is the file name of the input, so both spellings share one file |
| Fetcher.StripRemovesInnerSuffix | src/fetchers/yfinance_fetcher.py:161 | an inner ".NS" goes too: "M.NSX.NS" becomes "MX" |
| Fetcher.LoadEitherSpelling | src/fetchers/yfinance_fetcher.py:214-235 | a ticker's history is read from the file named by the ticker without ".NS", so the bare and the suffixed spelling load the same history |
| Fetcher.MergeSeries | src/fetchers/yfinance_fetcher.py:192-211 | without a file the new bars are stored as they are; otherwise the dates become unique and strictly ascending, every bar comes from the old or new data, and the dates are exactly those of either |
| Fetcher.NewBarWins | src/fetchers/yfinance_fetcher.py:198-201 | on a date present in the new bars, the merged history holds the last new bar and no other bar of that date |
| Fetcher.UntouchedBarSurvives | src/fetchers/yfinance_fetcher.py:198-204 | a stored bar on a date the new bars do not touch survives |
| Fetcher.MergeIdempotent | src/fetchers/yfinance_fetcher.py:192-211 | merging the same download twice changes nothing |
| Fetcher.StrictIsLast | src/fetchers/yfinance_fetcher.py:200-204 | in a strictly ascending history every bar is the last of its date |
| Fetcher.LastOfDate | src/fetchers/yfinance_fetcher.py:200-201 | every date present has a last bar |
| Fetcher.OnDay | src/fetchers/yfinance_fetcher.py:138-140 | the exact-date filter keeps exactly the bars of that day, in order |
| Fetcher.FetchAllForDate | src/fetchers/yfinance_fetcher.py:108-145 | a ticker is in the result exactly when its download succeeded and has bars on the day, and its entry holds exactly those bars |
| Fetcher.LatestDate | src/fetchers/yfinance_fetcher.py:238-252 | None exactly without a file or rows; otherwise a stored date that no stored date exceeds |
| Fetcher.MaxDate | src/fetchers/yfinance_fetcher.py:252 | the maximum date is attained and is an upper bound |
| Consolidator.BarsOf | src/processors/date_consolidator.py:34-38 | the bar columns of the extended rows are the bars, row for row |
| Consolidator.SmaMap | src/processors/date_consolidator.py:34-36 | row i gets one `SMA_p` cell per period, the rolling mean of the closes |
| Consolidator.SmaMapIgnoresLaterRows | src/processors/date_consolidator.py:34-36 | closes agreeing up to row i give the same moving averages there |
| Consolidator.CalculateSma | src/processors/date_consolidator.py:18-38 | the rows are the history sorted by date (a permutation, same count) with each row's `SMA_p` the trailing mean of up to p closes |
| Consolidator.SmaDefinedEarly | src/processors/date_consolidator.py:36 | a row with a close always has its averages, and before p rows the average runs over all rows so far |
| Consolidator.YearWindow | src/processors/date_consolidator.py:52-62 | the 52-week window never exceeds 252 bars |
| Consolidator.LastYearOf | src/processors/date_consolidator.py:61-62 | `tail(252)` keeps at most 252 rows |
| Consolidator.YearWindowMembers | src/processors/date_consolidator.py:53-62 | the window is date-sorted and holds only bars of the history dated on or before the day |
| Consolidator.YearWindowLength | src/processors/date_consolidator.py:59-62 | it holds min(252, n) bars, n the number dated on or before the day |
| Consolidator.YearWindowRecent | src/processors/date_consolidator.py:59-62 | a left-out bar is never later than a kept one: the window is the most recent year |
| Consolidator.TailOfSorted | src/processors/date_consolidator.py:62 | a tail of sorted rows is sorted and keeps the latest rows |
| Consolidator.Extremes | src/processors/date_consolidator.py:64-68 | high and low are attained in the window and are missing exactly when no bar has the cell, and both missing for an empty window |
| Consolidator.High52Low52Spec | src/processors/date_consolidator.py:41-70 | both extremes are missing when no bar is dated on or before the day; each present extreme is a bar's High (Low) dated on or before the day |
| Consolidator.High52PointInTime | src/processors/date_consolidator.py:58-62 | bars dated after the reference day change neither the window nor the 52-week high and low |
| Consolidator.High52OfSorted | src/processors/date_consolidator.py:53-55 | the extremes of the sorted history are those of the history |
| Consolidator.FirstOnDay | src/processors/date_consolidator.py:101-109 | the index of the first bar of the day, before which no bar has that date; None exactly when no bar does |
| Consolidator.FirstOnDayOfSorted | src/processors/date_consolidator.py:101-104 | the sorted history has a bar of the day exactly when the history does |
| Consolidator.SnapshotOf | src/processors/date_consolidator.py:94-131 | a row carries the ticker's name and no previous close |
| Consolidator.SnapshotOfRows | src/processors/date_consolidator.py:108-131 | a row read off the extended history carries the name and no previous close |
| Consolidator.SnapshotOfSpec | src/processors/date_consolidator.py:94-131 | a history yields a row exactly when it has a bar of the day; the row copies a bar of that day, has an `SMA_p` cell for every period, and its `High_52W`/`Low_52W` are the 52-week extremes of the history up to the day |
| Consolidator.SnapshotOfCells | src/processors/date_consolidator.py:94-131 | the row copies the first bar of the day in date order, and each `SMA_p` cell is the partial-window rolling mean of the sorted closes at that bar |
| Consolidator.SnapshotPointInTime | src/processors/date_consolidator.py:29-112 | appending bars dated after the day leaves the day's snapshot row, moving averages included, unchanged |
| Consolidator.RowsAgreeAtDay | src/processors/date_consolidator.py:95-112 | with only later bars appended, both histories find the same first bar of the day, with the same row and the same 52-week values |
| Consolidator.SnapshotsAgree | src/processors/date_consolidator.py:108-131 | the snapshot row is decided by the first bar of the day, its row and the 52-week pair |
| Consolidator.SortedPrefixAgrees | src/processors/date_consolidator.py:31-32 | sorting with and without later bars agrees on the prefix up to the day |
| Consolidator.SmaRowsAgree | src/processors/date_consolidator.py:34-36 | sorted histories agreeing up to row i give the same extended row i |
| Consolidator.FirstOnDaySamePrefix | src/processors/date_consolidator.py:101-109 | histories agreeing on a prefix, with only later bars after it, find the same first bar |
| Consolidator.ConsolidateRows | src/processors/date_consolidator.py:86-131 | at most one row per ticker |
| Consolidator.ConsolidateDate | src/processors/date_consolidator.py:73-140 | at most one row per ticker; a non-empty snapshot has the snapshot columns, an empty one none, and no coverage gate applies |
| Consolidator.RowForSpec | src/processors/date_consolidator.py:86-116 | a ticker yields a row exactly when its history (found under the name without ".NS") exists and has a bar of the day; the row's Symbol is that name |
| Consolidator.ConsolidateRowsAppend | src/processors/date_consolidator.py:86-131 | tickers contribute independently, in universe order |
| Consolidator.ConsolidateEmptyIff | src/processors/date_consolidator.py:133-135 | the snapshot is empty exactly when no ticker qualifies |
| Consolidator.ConsolidateRowsFromTickers | src/processors/date_consolidator.py:86-131 | every row is the row of a listed ticker |
| Consolidator.ConsolidateRowsComplete | src/processors/date_consolidator.py:86-131 | every qualifying ticker contributes its row |
| Breadth.NonZero | src/processors/breadth_calculator.py:52-54 | `.replace(0, np.nan)` turns exactly the zero prices into missing |
| Breadth.ChangeOver | src/processors/breadth_calculator.py:56 | the change is present exactly when close and base are, and then equals (close - base)/base·100 |
| Breadth.DailyChange | src/processors/breadth_calculator.py:51-62 | a change needs a close; a missing close gives none |
| Breadth.DailyChangeBase | src/processors/breadth_calculator.py:51-62 | the base is the previous close when its column exists and the value is present and non-zero, otherwise a non-zero open; with neither the change is missing |
| Breadth.Count | src/processors/breadth_calculator.py:43-44 | a `(condition).sum()` is at most the row count |
| Breadth.CountExtremes | src/processors/breadth_calculator.py:43-44 | the count is 0 exactly when no row qualifies and n exactly when all do |
| Breadth.CountAppend | src/processors/breadth_calculator.py:43-44 | counts add over a split of the rows |
| Breadth.CountDisjoint | src/processors/breadth_calculator.py:81-82 | two conditions no row meets together count at most n |
| Breadth.TiesCountNeither | src/processors/breadth_calculator.py:81-82 | a close equal to its average, or a missing cell, counts neither above nor below |
| Breadth.AboveBelowExclusive | src/processors/breadth_calculator.py:81-85 | above + below never exceeds n |
| Breadth.BigMovesExclusive | src/processors/breadth_calculator.py:64-65 | up 4.5 + down 4.5 never exceeds n, and a row without a base counts in neither |
| Breadth.Percent | src/processors/breadth_calculator.py:46-47 | `round(k/n·100, 2)` is within half a hundredth of the share, in [0, 100], exactly 0 and 100 at the ends |
| Breadth.Round2OfWhole | src/processors/breadth_calculator.py:72-74 | whole numbers round to themselves |
| Breadth.Ratio | src/processors/breadth_calculator.py:70-74 | with down-movers the ratio is up/down to two places; without them it is 0.0 exactly when there are no up-movers, else 99.99 |
| Breadth.SmaSplitOf | src/processors/breadth_calculator.py:77-88 | both percentages are 0.0 without the `SMA_p` column, and always within [0, 100] |
| Breadth.RawAbove | src/processors/breadth_calculator.py:91-99 | the raw count is at most n and 0 without the column |
| Breadth.CalculateBreadth | src/processors/breadth_calculator.py:22-103 | nothing exactly for an empty snapshot (no division); otherwise the day's record, percentages in [0, 100], ratio non-negative, raw counts at most n |
| Breadth.BreadthValues | src/processors/breadth_calculator.py:40-88 | each percentage is the rounded share of rows meeting its condition: close at or above the 52-week high, at or below the low, a daily move beyond ±4.5 %, close above or below `SMA_p` (0.0 for both without the column) |
| Breadth.RawCountsMatchPercentages | src/processors/breadth_calculator.py:81-99 | `20sma` and `50sma` are the counts behind `20+(%)` and `50+(%)`; both 0 without their column |
| Breadth.RatioMatchesMoves | src/processors/breadth_calculator.py:64-74 | the ratio and `4.5±(%)` use the same counts; without down-movers it is 99.99 exactly when some stock moved up, and 0.0 exactly when none did |
| Breadth.CountOfPermutation | src/processors/breadth_calculator.py:43-44 | counts do not depend on row order |
| Breadth.BreadthOfPermutation | src/processors/breadth_calculator.py:22-103 | the metrics depend only on which rows the snapshot holds, not on their order |
| Ledger.WithoutDate | src/processors/breadth_calculator.py:214-215 | removing a date keeps exactly the records of other dates, in order |
| Ledger.Upsert | src/processors/breadth_calculator.py:213-223 | the result is date-sorted and, as a multiset, is the ledger without the date plus the new record |
| Ledger.UpsertSpec | src/processors/breadth_calculator.py:213-223 | after the upsert the date has exactly one record, the new one, and every other record is kept |
| Ledger.UpsertStrict | src/processors/breadth_calculator.py:213-223 | a ledger with one record per date keeps that shape, strictly ascending |
| Ledger.UpsertIdempotent | src/processors/breadth_calculator.py:213-223 | upserting the same record twice gives the ledger once |
| Ledger.AppendBreadthMetrics | src/processors/breadth_calculator.py:185-232 | without a snapshot or with an empty one the ledger is unchanged; otherwise a ledger is written |
| Ledger.AppendSpec | src/processors/breadth_calculator.py:207-224 | with a snapshot, the written ledger holds exactly one record of the day, its metrics, keeps every other date's records and is ascending |
| Ledger.LatestDate | src/processors/breadth_calculator.py:235-248 | None exactly without a ledger or records; otherwise a recorded date no record exceeds |
| Ledger.MaxDate | src/processors/breadth_calculator.py:248 | the maximum date is attained and bounds every record |
| Ledger.LatestOfSorted | src/processors/breadth_calculator.py:244-248 | for a date-sorted ledger the latest date is the last record's |
| Ledger.LatestAfterAppend | src/processors/breadth_calculator.py:185-248 | after a day is appended the latest date is at least that day |
| Ledger.LatestAfterUpsert | src/processors/breadth_calculator.py:213-248 | after an upsert the latest date is at least the record's |
| Ledger.SelectColumns | src/processors/breadth_calculator.py:226-227 | `df[BREADTH_COLUMNS]` succeeds exactly when every header name is a column, and then gives the named cells in header order |
| Ledger.HeaderNamesMetrics | src/core/config.py:34-51 | the header names exactly the sixteen keys `calculate_breadth_metrics` fills |
| Ledger.MetricAt | src/core/config.py:34-51 | the dictionary entry under each header name is the record field that column stands for |
| Ledger.HeaderMatchesMetrics | src/processors/breadth_calculator.py:226-227 | selecting the header never fails and lays a record out date first, with the 4.5 ratio moved from its place in the dictionary to after the `200-(%)` column |
| Ledger.LedgerRowInjective | src/core/config.py:34-51 | the written row loses no metric: two records written as the same row are equal |
| Validator.MissingColumns | src/processors/data_validator.py:33-34 | exactly the wanted columns the frame lacks, none exactly when all are present |
| Validator.Tally | src/processors/data_validator.py:49 | a count of rows is at most the row count |
| Validator.TallyZero | src/processors/data_validator.py:49-51 | the tally is 0 exactly when no row qualifies |
| Validator.DuplicateCount | src/processors/data_validator.py:69 | `duplicated().sum()` is at most the row count |
| Validator.DuplicateCountZero | src/processors/data_validator.py:69-71 | it is 0 exactly when the dates are unique |
| Validator.NullIssues | src/processors/data_validator.py:40-44 | null issues name listed columns with a positive count |
| Validator.NullIssuesExact | src/processors/data_validator.py:40-44 | a column gets a null issue exactly when it is listed and one of its cells is missing |
| Validator.NullIssuesEmpty | src/processors/data_validator.py:40-44 | no null issue exactly when no listed column has a missing cell |
| Validator.PriceIssues | src/processors/data_validator.py:47-51 | price issues name listed columns with a positive count |
| Validator.PriceIssuesExact | src/processors/data_validator.py:47-51 | a price column gets an issue exactly when one of its values is below `MIN_PRICE` |
| Validator.PriceIssuesEmpty | src/processors/data_validator.py:47-51 | no price issue exactly when no value is below the minimum |
| Validator.CheckIssue | src/processors/data_validator.py:54-66 | a whole-row check reports one issue, with the count, exactly when some row fails |
| Validator.DuplicateIssue | src/processors/data_validator.py:69-71 | one duplicate-date issue exactly when a date repeats, carrying the count |
| Validator.ValidateStockData | src/processors/data_validator.py:14-78 | valid exactly when there are no issues; an empty frame and missing columns are each reported alone |
| Validator.ValidIff | src/processors/data_validator.py:39-78 | a non-empty history with its columns passes exactly when no cell is missing, no price is below the minimum, no volume is negative, no High < Low, no Close outside [Low, High] and no date repeats |
| Validator.CleanPassesChecks | src/processors/data_validator.py:147-158 | a row the cleaner keeps passes every row check except the volume check |
| Validator.ValidateConsolidated | src/processors/data_validator.py:81-107 | passes exactly for a non-empty snapshot of at least 350 rows with its columns; checked in the order empty, too few, missing columns |
| Validator.NullCells | src/processors/data_validator.py:122 | the missing-cell count is at most five per row |
| Validator.CheckDataQuality | src/processors/data_validator.py:110-131 | total rows is the row count; duplicates and zero volumes are 0 without their column and 0 exactly when none occur; the price range exists exactly with a Close column |
| Validator.NoNullCells | src/processors/data_validator.py:122 | a history without missing cells reports none |
| Validator.RemoveInvalidRows | src/processors/data_validator.py:134-167 | fails only when a filtered column is missing; otherwise keeps the columns, an order-preserving subsequence of clean rows with unique dates |
| Validator.RemoveKeepsLast | src/processors/data_validator.py:161 | for every date with a clean row, the last clean row of that date is kept |
| Validator.RemoveIdempotent | src/processors/data_validator.py:134-167 | cleaning a cleaned history changes nothing |
| Validator.NegativeVolumeSurvives | src/processors/data_validator.py:54-161 | the cleaner has no volume filter: a clean bar with negative volume survives cleaning and still fails validation |
| Validator.CleanedIsValid | src/processors/data_validator.py:134-167 | a cleaned history with all columns and no negative volume passes validation |
| Corporate.Indices | src/utils/corporate_actions.py:46 | the mask keeps exactly the indices in range that satisfy the test, ascending |
| Corporate.FirstRowNeverJumps | src/utils/corporate_actions.py:42-46 | the first row has no predecessor and is never reported |
| Corporate.JumpOfPresent | src/utils/corporate_actions.py:42-46 | between two present closes the test is the relative change exceeding 20 % in magnitude |
| Corporate.JumpRows | src/utils/corporate_actions.py:46 | exactly the rows whose change exceeds 20 %, ascending |
| Corporate.ActionsFrom | src/utils/corporate_actions.py:48-57 | at most one action per row |
| Corporate.ActionsAreJumps | src/utils/corporate_actions.py:46-57 | every reported action is the record of a jump row |
| Corporate.JumpsAreActions | src/utils/corporate_actions.py:46-57 | every jump row is reported |
| Corporate.ActionsFromOrdered | src/utils/corporate_actions.py:39-57 | actions of a date-sorted history come in date order |
| Corporate.CheckCorporateActions | src/utils/corporate_actions.py:18-64 | nothing for fewer than two rows; otherwise the actions of the sorted history, each tagged with the symbol and the split-or-bonus type |
| Corporate.VolumeRatio | src/utils/corporate_actions.py:143-144 | a ratio that is not NaN needs the row's volume |
| Corporate.SpikeWindow | src/utils/corporate_actions.py:143-147 | a spike compares the volume with the NaN-skipping mean of up to 20 rows ending at this one |
| Corporate.FirstRowNeverSpikes | src/utils/corporate_actions.py:143-147 | the first row's average is its own volume, so with a multiple of at least 1 it never spikes |
| Corporate.SpikeRows | src/utils/corporate_actions.py:147 | exactly the rows whose ratio exceeds the multiple, ascending |
| Corporate.AnomaliesFrom | src/utils/corporate_actions.py:149-156 | at most one anomaly per row |
| Corporate.AnomaliesAreSpikes | src/utils/corporate_actions.py:147-156 | every anomaly is the record of a spike row |
| Corporate.SpikesAreAnomalies | src/utils/corporate_actions.py:147-156 | every spike row is reported |
| Corporate.CheckVolumeAnomaly | src/utils/corporate_actions.py:125-158 | nothing for fewer than 20 rows; otherwise the anomalies of the sorted history |
| Corporate.MissingCount | src/utils/corporate_actions.py:184-185 | symbols without data are at most all of them |
| Corporate.GenerateReport | src/utils/corporate_actions.py:161-206 | every symbol counts as with or without data; the action count is the sum over symbols; one issue per missing symbol and per action |
| Corporate.RecentActions | src/utils/corporate_actions.py:114-122 | an order-preserving selection of exactly the actions whose IST midnight is at or after the cutoff |
| Corporate.RecentByDate | src/utils/corporate_actions.py:114-119 | an action is recent exactly when its date is after the cutoff's IST date, or on it with the cutoff at midnight |
| Sizes.Rank | src/utils/file_manager.py:129-134 | a unit's place on the ladder is at most 4 |
| Sizes.UnitAt | src/utils/file_manager.py:129 | the unit tried at step k has rank k |
| Sizes.Scale | src/utils/file_manager.py:132 | 1024 to a power is at least 1 |
| Sizes.LadderValue | src/utils/file_manager.py:129-134 | the value times 1024 per step taken gives the size back, and below TB the value is under 1024 |
| Sizes.LadderSkips | src/utils/file_manager.py:129-132 | every unit passed over had a quotient of at least 1024 |
| Sizes.HumanSize | src/utils/file_manager.py:127-134 | sizes under 1024 are reported in bytes unchanged |
| Sizes.HumanSizeSpec | src/utils/file_manager.py:127-134 | the value is the byte count divided by 1024 per step; the unit is the first whose quotient is below 1024, else TB |
| Sizes.TerabytesIff | src/utils/file_manager.py:134 | the unit is TB exactly when the size reaches 1024^4 bytes |
| Sizes.FileSize | src/utils/file_manager.py:101-114 | a missing file counts as zero bytes, otherwise its size |
| Sizes.DirectorySize | src/utils/file_manager.py:154-173 | a missing directory counts as zero, otherwise the total of its files |
| Sizes.TotalBounds | src/utils/file_manager.py:167-173 | the total is at least each file's size and 0 exactly when every file is empty |
| Sizes.DirectoryLadderIsFileLadder | src/utils/file_manager.py:176-193 | a directory is reported exactly as a single file of its total size would be |
| Pipeline.CountOkBounds | src/main.py:66-83 | the success count is at most the symbol count, all of them exactly when every fetch succeeds, 0 exactly when none does |
| Pipeline.FailedOfSpec | src/main.py:66-83 | the failed list keeps universe order, holds exactly the failing symbols, and with the success count adds up to the universe |
| Pipeline.FetchAll | src/main.py:66-184 | one fetch step per symbol in order; `success + len(failed) == len(symbols)`; failed holds exactly the failing symbols in order |
| Pipeline.AfterFetch | src/main.py:193-214 | below 350 successful fetches nothing more runs; consolidation runs exactly at 350 or more; breadth runs exactly when consolidation also succeeded |
| Pipeline.FetchDaily | src/main.py:133-214 | the date defaults to the previous trading day; a non-trading day takes no step; otherwise every symbol is fetched, consolidation runs exactly when at least 350 fetches succeed, breadth only after a successful consolidation |
| Pipeline.CountProcessed | src/main.py:105-124 | processed days are at most all days |
| Pipeline.ProcessDaysSpec | src/main.py:105-124 | each trading day is consolidated; breadth runs exactly for the days whose consolidation succeeded; nothing else happens |
| Pipeline.InitializeHistorical | src/main.py:38-130 | `success + len(failed) == len(symbols)`, `processed + failed_days == len(trading_days)`; the days are exactly the trading days from `days_back` days ago up to now, ascending; none for a negative `days_back` |
| Pipeline.Naive | src/processors/breadth_calculator.py:247-248 | a date read back from the ledger is a naive value at 00:00:00 of that day |
| Pipeline.CatchUpDaysSpec | src/main.py:247-255 | the catch-up visits each trading day of [lo, hi] once, ascending, and nothing else |
| Pipeline.DailySteps | src/main.py:250-253 | one one-day run per date, in order |
| Pipeline.CatchUpStepsSpec | src/main.py:247-255 | the one-day runs are exactly one per trading day of [lo, hi], ascending |
| Pipeline.IncrementalPlan | src/main.py:217-258 | without a ledger only the initialisation runs; with the ledger at or past the target nothing runs |
| Pipeline.IncrementalPlanSpec | src/main.py:242-255 | the dates handed to the one-day run are exactly the trading days in (latest, target], ascending, each once |
| Pipeline.UpdateIncremental | src/main.py:217-258 | the target is the previous trading day (1 to 31 days back) and the steps follow the corrected plan |
| Pipeline.WalkAsWritten | src/main.py:249-255 | the loop raises whenever one side of `date <= target` is naive and the other aware |
| Pipeline.IncrementalAsWritten | src/main.py:224-255 | as written: no ledger runs the initialisation, a ledger at or past the target does nothing |
| Pipeline.AsWrittenCrashesWithWork | src/main.py:247-249 | as written, whenever there is a day to catch up the comparison raises before any day is processed |
| Pipeline.AsWrittenCounterexample | src/main.py:247-249 | the ledger ending Tuesday 2 January 2024 with target Wednesday 3 January midnight IST: the code raises, the intended plan runs 3 January |
| Pipeline.UpdateIncrementalAsWritten | src/main.py:217-258 | as written, with the ledger behind the previous trading day the update always raises |

## Left out

- Network and disk: downloading from Yahoo Finance (with its retries and back-off), CSV and JSON reading and writing, directory creation, backups, file cleanup and counting. Downloads and stored histories are function parameters; writes are steps in a trace.
- `log_corporate_action`: it only appends to a JSON file.
- `fetch_stock_data`'s conversion of UTC timestamps to IST dates: bars arrive already keyed by their IST day.
- The `holidays` package: holidays per year are a parameter. `save_holidays_to_file` and `load_holidays_from_file` are file I/O.
- `get_current_ist_time` and every default of "now": the clock is an argument.
- The `index_fetcher` symbol list, logging, console output and the command-line entry point.
- `calculate_all_metrics`, `load_daily_consolidated`, `get_latest_consolidated_date`, `create_gitkeep`, `ensure_directories`: file scans and I/O around the modelled logic.
- Time zones: Asia/Kolkata is the fixed +05:30 offset it has had since 1945. Zone databases and daylight saving are not modelled.
- Sub-second precision: datetimes have whole seconds.
- Civil.FormatIso: pads years 1 to 999 with zeros to four digits, as `date.isoformat` does. The C library's `%Y` behind `strftime` may print such years without padding, and the model does not follow it. `Clock.FormatDateForFilename` inherits this.
- Stored Date cells are never missing (no NaT).
- A snapshot missing its price or 52-week columns, which makes pandas raise `KeyError` in `calculate_breadth_metrics`: not modelled. Snapshots always carry the snapshot columns, and only `Prev_Close` and the `SMA_p` columns may be absent.
- Floating point: prices, means and quotients are exact reals. Division by zero follows IEEE (plus or minus infinity, NaN) through `Numeric.Ext`.
- Numeric.Round2: rounds half-up on exact reals. Python's `round` works on binary floats, where halfway cases are rare and go to even, so the model can differ from the code in the last cent on such cases.
- Seqs.SortBy: a stable insertion sort. pandas' default quicksort is not stable, so rows with equal dates may come out in another order. Every contract here holds for any date-sorted permutation. Where row order within a date matters (the first bar of a day), the model fixes the stable order.
- NanStats.PctChange: pads missing closes forward before comparing, which is the pandas 2.x default. Newer pandas versions that stop padding are not modelled.
- Corporate.CheckCorporateActions: does not record `detected_at`. The two-decimal change and close are kept as exact values. The `detected_at` timestamp reads the clock.
- Corporate.RecentActions: assumes every logged date parses. A malformed date would make `strptime` raise.
- Sizes.HumanSize: returns the exact value and unit, not the `"{size:.2f} {unit}"` text.
- Breadth.CalculateBreadth: the record's date is the day number, not its `%Y-%m-%d` text. `Clock.FormatDateForFilename` and `Civil.ParseFormat` cover the text.
- Pipeline.FetchDaily: any exception inside consolidation or breadth is an effect outcome (`Effects.consolidateOk` / `breadthOk`). The model does not say which exception it is.

## Findings

| source | as written | input that shows it | evidently intended | confidence | as-written member | corrected member |
|---|---|---|---|---|---|---|
| src/main.py:247-249 | The catch-up loop starts from the ledger's latest date plus one day. That date is a naive pandas Timestamp, because the ledger's Date column is parsed without a zone. The loop compares it with `<=` against the target from `get_previous_trading_day`, which is aware (IST). pandas raises `TypeError` on a naive-versus-aware comparison, so every incremental update with at least one day to catch up fails before processing a day. | The ledger ends 2024-01-02; the update runs on 2024-01-04, so the target is 2024-01-03 00:00 IST. | Compare calendar dates, as the up-to-date check on line 242 does, and run the one-day update for each trading day in (latest, target]. | not executed | Pipeline.IncrementalAsWritten, Pipeline.AsWrittenCrashesWithWork, Pipeline.AsWrittenCounterexample | Pipeline.IncrementalPlan, Pipeline.IncrementalPlanSpec, Pipeline.UpdateIncremental |
