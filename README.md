# NSE indices statistics — a Dafny model

`nse_indices_1.py` builds a daily report on a set of NSE stock-market
indices. It fetches closing prices, aligns them into one date × index table,
derives month-to-date (MTD) and day-over-day (DoD) percentage changes, and
writes a raw workbook and a styled dashboard. This project models the
statistics step between fetching and writing. The steps are:

- **Gap filling** (`GapFill`): columns with no observation at all are
  dropped. Every other column is forward-filled and then backward-filled.
  No NaN is left, and every observed price is unchanged.
- **Streaks** (`Streaks`): each column's price changes are taken with
  `diff().fillna(0)`. The longest run of rising days and the longest run of
  falling days are then counted by the source's two counter loops, modelled
  as a method with loop invariants. Each loop is proved to compute the
  longest run of set flags.
- **Summary and market overview** (`Ranking`, `Market`): the final-day MTD
  values are ranked high to low. The overview holds the average change, the
  numbers of gainers and losers, the top and bottom performer, and the
  Bullish/Bearish/Neutral mood. Each is proved against the unranked values.
- **Daily movers** (`Movers`): the source's loop walks the dates newest
  first and skips dates with no value. For every other date it records the
  three biggest gainers and the three biggest losers. The method is proved
  equal to a per-date specification, and the digest's properties are proved
  about that specification.
- **Sheet order** (`Sheets`): the dashboard's fixed sheet list is filtered
  down to the sheets present, keeping the list's order. The raw workbook's
  seven sheets, after the two renames, yield exactly that list.

Prices and percentages are exact `real`s, and a missing cell (NaN) is
`None`. The modelled statistics use comparisons and signs of these values,
and the overview's mean is taken as an exact average, not a floating-point
one. Dates are `int`s in the order of the table's rows,
oldest first.

Ties follow the code. The summary uses `sort_values` with its default sort
kind, which is not stable, so the summary promises no order among equal
values: it is sorted and a permutation. The daily movers use `nlargest(3)`
and `nsmallest(3)` with their default `keep="first"`. When equal values
compete for the last places, the ones in the earlier columns are chosen.
In a row of more than three values, the chosen values are also listed with
equal values in column order. The model's ranking is an insertion sort that
keeps equal values in column order, and it is proved to choose and list
values this way.

## Model

| member | source | states |
|---|---|---|
| GapFill.ForwardFillFrom | nse_indices_1.py:100 | the forward fill has one cell per row and keeps every observed cell |
| GapFill.BackwardFill | nse_indices_1.py:101 | the backward fill has one cell per row and keeps every observed cell |
| GapFill.Fill | nse_indices_1.py:100-101 | `ffill().bfill()` has one cell per row and keeps every observed cell |
| GapFill.ForwardFillSpec | nse_indices_1.py:100 | of `ForwardFill` (`ForwardFillFrom` with no observation carried in): a cell is NaN exactly when no row up to it is observed; otherwise it is the latest observation up to its row |
| GapFill.BackwardFillSpec | nse_indices_1.py:101 | a back-filled cell is NaN exactly when no row from it on is observed; otherwise it is the earliest observation from its row on |
| GapFill.FillLeavesNoGap | nse_indices_1.py:99-102 | a column with at least one observation has no NaN after `ffill().bfill()` |
| GapFill.FillSpec | nse_indices_1.py:100-101 | every filled cell is an observed value of its column: the latest one at or before its row, or the column's first one when nothing before it is observed |
| GapFill.DropAllMissing | nse_indices_1.py:99 | `dropna(axis=1, how="all")` keeps, in their order, exactly the columns with an observation |
| GapFill.FillGaps | nse_indices_1.py:96-102 | the filled table has the kept columns' names and lengths, and every observed price is unchanged |
| GapFill.FillGapsComplete | nse_indices_1.py:96-102 | after gap filling every column still has one cell per date and no column holds a NaN |
| Streaks.LongestRun | nse_indices_1.py:133-141 | the counter loop (`cur` reset on an unset flag, the maximum kept) returns the length of the longest run of consecutive set flags |
| Streaks.LongestRunUnique | nse_indices_1.py:133-141 | the longest run length is unique, so the loop's result is determined by the flags |
| Streaks.ColumnStreaks | nse_indices_1.py:131-141 | the win streak is the longest run of strictly positive deltas (`Rises`) and the lose streak the longest run of strictly negative deltas (`Falls`), with `Delta` taking the first day and a day next to a missing close as 0, as `diff().fillna(0)` does |
| Streaks.StreakTable | nse_indices_1.py:129-146 | one streaks row per column, in column order, each with that column's name and its two longest runs |
| Streaks.StreakBounds | nse_indices_1.py:131-146 | a column of one row (or none) has streaks 0 and 0; for n rows the two streaks together are at most n - 1, because the first day's delta is 0 and no day both rises and falls |
| Streaks.RisingEveryDay | nse_indices_1.py:131-141 | a column rising on every day has win streak n - 1 and lose streak 0 |
| Streaks.FlatDayBreaksStreaks | nse_indices_1.py:131-135 | an unchanged close, the first day, or a day next to a missing close counts as neither rising nor falling |
| Ranking.InsertSpec | nse_indices_1.py:111-114 | inserting an entry into a ranked list adds exactly that entry and keeps the list ranked |
| Ranking.SortSpec | nse_indices_1.py:111-114 | the summary ranking `Sort` (insertion sort) is a permutation of the values, ordered high to low (or low to high) |
| Ranking.SortArrangement | nse_indices_1.py:120-121 | the insertion sort's output is an arrangement of the row's positions (each used once) that keeps equal values in column order |
| Ranking.TopSpec | nse_indices_1.py:120-121 | `Top` (the first min(k, n) entries of `Sort`) is `nlargest(k)` / `nsmallest(k)` with `keep="first"`: min(k, n) entries from distinct positions of the row, in rank order, equal values in column order, and no entry left out ranks before a chosen one or ties it from an earlier column |
| Ranking.KeepFirstOnTies | nse_indices_1.py:120 | an illustration of the keep-first rule that `TopSpec` proves for every row: for the row [A:1, B:1], only [A:1] is a valid `nlargest(1)` |
| Market.CountsBounded | nse_indices_1.py:155-156 | gainers plus losers never exceed the number of indices |
| Market.MoodFollowsSum | nse_indices_1.py:154-159 | the mood is Bullish iff the values sum to more than zero, Bearish iff to less, Neutral iff to exactly zero or there are no values |
| Market.SortKeepsTotals | nse_indices_1.py:110-114 | ranking changes neither the sum nor the numbers of gainers and losers |
| Market.OverviewTotals | nse_indices_1.py:154-159 | `MakeOverview` of the ranked values: its gainer and loser counts (`CountGainers`, `CountLosers`), `Average` and `MoodOf` mood equal those of the unranked final-day values |
| Market.OverviewPerformers | nse_indices_1.py:157-158 | `MakeOverview`'s top performer has the highest final-day value, its bottom performer the lowest, and both are "" when there are no indices |
| Movers.Present | nse_indices_1.py:118 | `loc[dt].dropna()` has no more entries than the table has columns |
| Movers.PresentColumns | nse_indices_1.py:118 | a date's present values are one entry per non-missing column, in column order: the m-th entry is the m-th non-missing column's name and value |
| Movers.PresentSpec | nse_indices_1.py:118 | a date's present entries are exactly the non-missing cells of that date, labelled with their column |
| Movers.DailyMovers | nse_indices_1.py:116-127 | the newest-first loop produces exactly the per-date rows (`MoversAt`, built by `RankRow`) collected newest date first (`Collect`) |
| Movers.MoverRowSpec | nse_indices_1.py:118-126 | a date has as many present values as non-missing columns; it yields no row iff it has none; otherwise `RankRow` holds a valid `nlargest(3)` and `nsmallest(3)` of its values, ties kept from the earlier column |
| Movers.CollectRows | nse_indices_1.py:116-126 | collecting at most one row per date keeps each date's row and adds nothing else |
| Movers.CollectNewestFirst | nse_indices_1.py:117 | rows collected from ascending dates come out newest date first |
| Movers.DigestSpec | nse_indices_1.py:116-126 | the digest has at most one row per date; every row belongs to a date with values, and every such date has its row; with ascending dates the rows run newest first |
| Sheets.KeepPresent | nse_indices_1.py:332 | the filter is a subsequence of the wanted list, keeps exactly the wanted names present, and adds no duplicate |
| Sheets.SheetOrder | nse_indices_1.py:331-332 | the dashboard's sheets are the desired names present, in the desired order, none twice |
| Sheets.DashboardHasAllSheets | nse_indices_1.py:331-332 | after `Rename` ("Day over Day %" to "DoD%" at line 286, "Market Overview" to "Overview" at line 323), the raw workbook's seven sheets are exactly the desired sheets, in the desired order |

## Left out

- Config loading and date-range defaulting (nse_indices_1.py:44-60) are file reads and calls to the clock, so they are not modelled.
- The price fetch, the cache files and the "no data fetched" abort (nse_indices_1.py:67-90) are network and file I/O. The model starts from the table of fetched columns.
- Building the aligned table with `pd.DataFrame` and `sort_index` (nse_indices_1.py:94-98) is not modelled. The table is an input whose rows are already aligned, oldest date first.
- The MTD and DoD percentage formulas and `round(2)` (nse_indices_1.py:104-108, 168) are floating-point arithmetic and rounding. MTD and DoD values are inputs given as exact reals.
- Timezone stripping and date formatting (nse_indices_1.py:95, 123, 167) are not modelled, and dates are plain integers.
- `", ".join` of the mover names (nse_indices_1.py:124-125) is not modelled; the names are kept as lists.
- The overview's date-range row and its percent formatting (nse_indices_1.py:161-175) are text. `Overview` keeps the computed values only.
- Writing the workbooks and the CSV, and all styling (nse_indices_1.py:179-330), is library I/O. The two sheet renames at lines 286 and 323 are modelled because the sheet order depends on them.
- Floating-point NaN beyond missing cells is not modelled. An empty summary's mean is `None` (NaN), and it gives the Neutral mood as NaN comparisons do.
- Market.MoodFollowsSum: the average is exact, so the model does not capture a float64 mean that lands just off zero when the values cancel (0.1, 0.2 and -0.3 sum to about 5.6e-17 in floating point, so the code reports Bullish where the model reports Neutral).
- Ranking.TopSpec: for a row of at most k values, pandas falls back to the default, unstable sort, so the order of equal values inside the gainers or losers list is not promised there. `IsTopAt` lists them in column order, which is the model's choice.
- Ranking.SortSpec: does not state how ties are ordered, because the code's default `sort_values` kind is not stable.
