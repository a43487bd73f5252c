# Monthly-trend resolver of the Sense dashboard, in Dafny

The Sense dashboard is a Streamlit page that displays precomputed CSV files. Its one piece
of real logic is in the "Tendência mensal" (monthly trend) tab. That tab takes a monthly
trend table of unknown layout and works out which column holds the month and which holds
the metric. It then plots the metric over time, with an optional moving-average overlay,
and shows the M+1 predictions table under the chart. This project models that tab and
proves what it does.

- `wrappers.dfy`, module `Wrappers`: `Option`.
- `text.dfy`, module `Text`: `str.lower` on column names, the substring test `k in c`,
  the six month keywords (`month`, `mes`, `data`, `date`, `dt`, `period`) and the
  `any(...)` keyword test.
- `frames.dfy`, module `Frames`: cells, columns and tables as values (`Frame`). It also
  holds the `DataFrame` class, whose header and columns the script assigns in place
  (`df.columns = cols`, `df[month_col] = ...`).
- `trend.dfy`, module `Trend`: the tab as pure functions. This covers header
  normalisation, the month-column scan, the metric choice, date coercion, `dropna`, the
  sort by date, the two plotted lines and the resulting outcome (`NotFound`,
  `Unresolved` or `Chart`). It also holds the lemmas about them.
- `dashboard.dfy`, module `Dashboard`: the tab as the script runs it. `DetectMonthColumn`
  is the `for ... break` loop. `RenderTrendTab` mutates the loaded `DataFrame` and is
  proved equal to `Trend.TrendTab`.

Abstractions:
- `pd.to_datetime(..., errors='coerce')` is a parser passed in as a parameter,
  `parse: Cell -> Option<Date>`.
- `Date` is an integer, as `datetime64[ns]` is a count of nanoseconds. Dates are
  therefore totally ordered.
- `pd.api.types.is_numeric_dtype` is a per-column flag, `Column.isNumeric`.
- The trend table's column names are assumed distinct after lower-casing (a `requires`
  on `Trend.TrendTab` and `Dashboard.RenderTrendTab`). Under that assumption the
  resolver (streamlit_app.py:86-105) never raises: every function here is total.
  Unresolved columns give the `Unresolved` outcome, which is the `st.warning` branch.

Behaviour of the script worth knowing:
- The primary line's legend is the LOWER-CASED metric name (`label=events_col` after
  the header was rewritten), not the column's original spelling.
- Lower-casing rewrites the loaded table's header in place. The original casing is not
  kept (`RenderTrendTab` states the state it leaves the object in).
- A table with a `Month` column and an `events` column does not always plot `events`
  against `month`. An earlier column whose name contains a keyword wins, e.g. `updated`
  contains `date` (`Trend.EarlierKeywordWins`). `Trend.MonthAndEvents` proves that a
  table whose column lower-casing to `month` has no month-like column before it, and
  that has an `events` column, plots `events` against `month`.

## Model

| member | source | states |
|---|---|---|
| `Text.LowerChar` | streamlit_app.py:86 | a lower-cased character is never upper-case; upper-case ASCII letters move by 32, everything else is kept |
| `Text.Lower` | streamlit_app.py:86 | `c.lower()` is lower-case and spells the same word as `c` ignoring case |
| `Text.LowerUnique` | streamlit_app.py:86 | the lower-case spelling is the only lower-case string equal to the name ignoring case |
| `Text.LowerKeepsLowerCase` | streamlit_app.py:86 | a name without upper-case letters is left as it is |
| `Text.LowerIdempotent` | streamlit_app.py:86 | lower-casing twice equals lower-casing once |
| `Text.Contains` | streamlit_app.py:92 | `k in c`: a keyword that occurs is never longer than the name; the empty string occurs in every name |
| `Text.ContainsIffOccurs` | streamlit_app.py:92 | the substring test `k in c` holds exactly when `k` occurs at some position of `c` |
| `Text.AnyKeywordInIff` | streamlit_app.py:92 | the short-circuit `any(k in c for k in keywords)` holds exactly when some keyword occurs in the name |
| `Text.IsMonthLike` | streamlit_app.py:92 | a name is month-like exactly when one of the six keywords occurs in it |
| `Text.EventsNotMonthLike` | streamlit_app.py:92-97 | the name `events` contains none of the six keywords |
| `Frames.IndexOf` | streamlit_app.py:104-110 | the column `df[name]` reads is the first one so named; there is none exactly when the name is absent |
| `Frames.DataFrame.constructor` | streamlit_app.py:27 | a loaded table holds the parsed file |
| `Frames.DataFrame.SetHeader` | streamlit_app.py:87 | `df.columns = cols` renames the columns position by position and keeps cells, dtypes, count and row count |
| `Frames.DataFrame.SetColumn` | streamlit_app.py:104 | assigning `df[month_col]` replaces the cells and dtype of the first column of that name and nothing else |
| `Trend.LowerNames` | streamlit_app.py:86 | the new header has one name per column, in order, each lower-case and equal to the old name ignoring case |
| `Trend.NormaliseIdempotent` | streamlit_app.py:86-87 | normalising an already normalised table changes nothing |
| `Trend.Normalise` | streamlit_app.py:86-87 | the table after `df.columns = cols`: its header is the lower-cased header, and the number and order of columns, their cells, dtypes and the row count stay |
| `Trend.FirstMonthLike` | streamlit_app.py:90-94 | the scan returns the position of a month-like name with no month-like name before it, or nothing when no name is month-like |
| `Trend.MonthColumn` | streamlit_app.py:90-94 | `month_col`, when found, is a month-like name of the header; it is `None` exactly when no name is month-like |
| `Trend.MonthColumnIsFirstMatch` | streamlit_app.py:90-94 | when column `k` is month-like and no earlier column is, `month_col` is that column's name |
| `Trend.NoMonthLikeNoMonthColumn` | streamlit_app.py:90-94 | with no keyword in any name, `month_col` stays `None` |
| `Trend.NumericNames` | streamlit_app.py:99 | a name is in the list exactly when some numeric column has that name |
| `Trend.Excluding` | streamlit_app.py:100 | the filtered list holds exactly the names that are not the month column |
| `Trend.MetricColumn` | streamlit_app.py:97-101 | an `events` column is the metric whatever its dtype; any metric found is a column name |
| `Trend.FirstCandidate` | streamlit_app.py:98-101 | reference choice: the first numeric column, in column order, whose name is not the month column, or nothing when there is none |
| `Trend.CandidatesStartAtFirst` | streamlit_app.py:99-101 | the two list comprehensions start with exactly that first candidate, and are empty when there is none |
| `Trend.MetricIsFirstCandidate` | streamlit_app.py:98-101 | without `events`, the metric is the first numeric non-month column, or `None` |
| `Trend.MetricDiffersFromMonth` | streamlit_app.py:90-101 | when both columns are resolved, the metric column is not the month column |
| `Trend.ToDatetime` | streamlit_app.py:104 | a coerced cell is a date exactly when it parses, and then it is the parsed date; otherwise it is NaT |
| `Trend.Coerced` | streamlit_app.py:104 | each coerced cell is a date exactly when it parses, and then it is the parsed date; the dtype is no longer numeric |
| `Trend.CoerceColumn` | streamlit_app.py:104 | coercion keeps the header, the column count and the row count |
| `Trend.CoercedRow` | streamlit_app.py:104 | in every row only the month cell changes, to its parsed date or NaT |
| `Trend.KeepDated` | streamlit_app.py:105 | `dropna` keeps no more rows than it is given; every kept row has a date in its month cell; each dated row is kept as often as it occurs |
| `Trend.KeptAreParsed` | streamlit_app.py:104-105 | the kept rows are exactly the input rows whose month cell parses, with that cell replaced by its date |
| `Trend.Insert` | streamlit_app.py:105 | inserting into a date-sorted sequence keeps it sorted and adds exactly that row |
| `Trend.SortByDate` | streamlit_app.py:105 | `sort_values(month_col)` yields the same rows (as a multiset), ordered non-decreasing by date |
| `Trend.Points` | streamlit_app.py:108-110 | one point per row, in row order: the row's date against its cell in the plotted column |
| `Trend.Draw` | streamlit_app.py:105-110 | the chart rows are the dated rows, sorted by date and no more than the input rows; the primary line plots their metric cells in that order under the metric's name; the `ma` overlay, when present, plots their `ma` cells over the same rows in the same order |
| `Trend.Resolve` | streamlit_app.py:97-121 | a chart exactly when both columns are resolved, the warning otherwise; the chart names the two columns, which differ, and has an overlay exactly when an `ma` column exists |
| `Trend.LeftBehind` | streamlit_app.py:86-104 | the loaded table afterwards has the lower-cased header and the same row count; when both columns resolve, the month column holds its coerced cells; every other column, month-like or not, is exactly the normalised column |
| `Trend.Present` | streamlit_app.py:84 | a present table (`is not None and not df.empty`) exists and has at least one row and one column |
| `Trend.TrendTab` | streamlit_app.py:84-123 | "not found" exactly when the trend table is missing or empty; a drawn chart shows the predictions table exactly when that table is present and non-empty |
| `Trend.UnresolvedWithoutColumns` | streamlit_app.py:90-103 | a table with no month-like name, or with no `events` and no numeric column besides the month column, gets the warning |
| `Trend.MonthAfterLowering` | streamlit_app.py:86-94 | a column lower-casing to `month` with no month-like name before it is the month column |
| `Trend.MonthAndEvents` | streamlit_app.py:86-97 | a table whose column lower-casing to `month` has no month-like column before it, and that has a column lower-casing to `events`, plots `events` against `month` |
| `Trend.EarlierKeywordWins` | streamlit_app.py:90-94 | in the header `updated, month, events` the month column is `updated` |
| `Dashboard.DetectMonthColumn` | streamlit_app.py:90-94 | the loop with `break` returns the specified month column, a month-like name of the header |
| `Dashboard.RenderTrendTab` | streamlit_app.py:84-123 | the tab's outcome is `TrendTab` of the inputs as loaded; the loaded table is left with its header lower-cased and, when a chart is drawn, its month column coerced |

## Left out

- File loading, the existence checks and the sidebar status list (streamlit_app.py:18-47) are filesystem I/O. A missing file is the `None` snapshot of a `DataFrame?`.
- All `st.*` and matplotlib calls (titles, axis labels, the legend, `st.pyplot`) are display only. The model keeps only the data passed to `ax2.plot` and whether the predictions table is shown, not that table's contents.
- The per-cluster mean bar chart (streamlit_app.py:57-77) is left out: it relies on pandas floating-point means, and the order of equal means is unspecified.
- The ANOVA minimum p-value callout, the Tukey table and `executive_summary.csv` (streamlit_app.py:128-146, 31) are display only, a float `min` inside a catch-all, or data that is loaded and never used.
- `pd.to_datetime` parsing rules and pandas dtype inference are library behaviour. They enter as the `parse` parameter and the `isNumeric` flag.
- Text.LowerChar, Text.Lower: lower-case ASCII letters only, whereas Python's `str.lower` also maps non-ASCII letters (and can change a name's length).
- Frames.IndexOf: takes the first column of a name. Duplicate names after lower-casing (for example `Date` and `date`) are excluded by the `requires` of `Trend.TrendTab` and `Dashboard.RenderTrendTab`. When the month column's name is duplicated, `df[month_col]` is a sub-table, line 104 raises a `ValueError` from `pd.to_datetime` and no chart is drawn. Other duplicates reach line 108 as a multi-column sub-table, plotted as several lines. The model covers neither input.
- Drawing at streamlit_app.py:108-110 can raise inside matplotlib: a text metric column with missing cells (an object column holding a float NaN) makes its category converter fail. The model treats plotting as always succeeding and does not capture this.
- Trend.SortByDate: the model fixes one order among rows with equal dates, because pandas' default sort is not stable. Only sortedness and the permutation are claimed.
- Line 105 rebinds `monthly_trend` to a new filtered and sorted table. The model keeps that table as the value `Chart.rows`, not as a new `DataFrame` object.
- `Date` is unbounded. `datetime64[ns]` is 64-bit, and dates outside its range become NaT; those are part of what `parse` returns.
