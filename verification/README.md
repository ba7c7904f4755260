# Shipment timeline: the cleaning pipeline in Dafny

This project models the data-cleaning core of a small Streamlit app that draws a
Gantt chart of shipments from an uploaded CSV file (`app.py`). The function
`load_data` does four things:

- It converts `origin_arrival_time` and `dest_scheduled_time` with the strict
  format `%H:%M:%S`. An empty cell and the null texts `NaT`, `nat`, `NAT`,
  `nan`, `NaN` and `NAN` become null. Any other value that does not match
  aborts the whole load; the model counts the texts `now` and `today` among
  those (see "Left out").
- It converts `origin_depart_date` leniently: an unreadable value becomes null.
- It fills a null destination time with arrival + 3 hours when the arrival time
  is present.
- It drops every row whose arrival or destination time is still null.

The module body then adds a `color` column (`High (Above 50)` when
`miles_prime > 50`, otherwise `Low (Below 50)`) if the table has a
`miles_prime` column. It builds the date selector's options ("Select All" and
then the distinct depart dates, ascending). It filters the table by the chosen
date, and it shows either the chart or "No data available for the selected
option." when nothing is left.

Modules:

- `WallClock` (clock.dfy): the `%H:%M:%S` parser. A parsed time counts seconds
  since 1900-01-01 00:00:00, the base date of a time-only parse, so an imputed
  end can pass midnight without wrapping.
- `Shipments` (shipments.dfy): rows, the per-column conversions, the
  imputation rule, the completeness drop, the specification function `Load`
  and the column-by-column method `LoadData` proved equal to it (its steps are
  `ParseTimeColumn`, `AssembleRows`, `ImputeDestinations` and `DropIncomplete`).
- `Dashboard` (dashboard.dfy): the colour category, the date filter, the
  chart/no-data choice, and the option list built by `UniqueDates` and the
  in-place `SortInPlace`.
- `Seqs` (seqs.dfy) and `Wrappers` (wrappers.dfy): an order-preserving filter
  and the Option/Result types.

Only the two time columns decide whether a row is dropped: a row with a null
depart date stays in the cleaned table, and only the date filter leaves it out.

## Model

| member | source | states |
|---|---|---|
| `WallClock.ParseTime` | app.py:9-10 | an accepted value holds at least two colons, so `HH:MM` values and values without colons are rejected; the result is a time of day in [0, 86400) seconds after the base midnight |
| `WallClock.ParseTimeFields` | app.py:9-10 | a string `a:b:c` (colon-free `a`, `b`) is accepted iff `a` is a 1-2 digit hour at most 23 and `b`, `c` are 1-2 digit values at most 59; it then denotes 3600h + 60m + s; nothing may precede or follow |
| `WallClock.ParseFormat` | app.py:9-10 | every time of day written as zero-padded `HH:MM:SS` parses back to itself |
| `Shipments.TimeCell` | app.py:9-10 | a cell of a successfully converted time column is null iff it was empty or held a null text (`NaT`, `nat`, `NAT`, `nan`, `NaN`, `NAN`); a non-null value is the parsed time |
| `Shipments.NullTokenArrivalIsDropped` | app.py:9-16 | a line whose time cells read `NaT` does not abort the load; it is dropped |
| `Shipments.DateCell` | app.py:11 | an empty depart cell or a null text is null; any other value goes through the lenient date parser, whose failure is null |
| `Shipments.ParseColumn` | app.py:9-10 | converting a time column fails iff some cell is malformed; the error names that column and the first malformed position and its text; otherwise it yields each cell's value in row order |
| `Shipments.ParseTimeColumn` | app.py:9-10 | the cell-by-cell conversion loop returns exactly `ParseColumn` |
| `Shipments.Impute` | app.py:12-15 | the destination changes iff it is null and the arrival is not; it then becomes arrival + 10800 s exactly; a non-null destination (even one before the arrival) and every other field are left unchanged |
| `Shipments.Clean` | app.py:16 | every row after the drop has non-null arrival and destination times |
| `Shipments.CleanSelectsArrivals` | app.py:12-16 | the cleaned table is the ordered subsequence of rows with an arrival time, each imputed |
| `Shipments.CleanCount` | app.py:12-16 | no row with an arrival time is dropped: the output length is the number of such rows |
| `Shipments.CleanKeeps` | app.py:11-16 | a row with an arrival time reaches the output whatever its depart date or destination time |
| `Shipments.CleanIdempotent` | app.py:12-16 | cleaning an already cleaned table changes nothing |
| `Shipments.Load` | app.py:6-17 | the load fails iff some arrival or destination cell is malformed; the error names the arrival column iff some arrival cell is malformed, and gives the first malformed position of its column and that cell's text; on success the result is the cleaned typed table |
| `Shipments.LoadKeepsTimedRows` | app.py:9-16 | after a successful load, every line whose arrival cell is filled in is in the output, even with an unreadable or empty depart date |
| `Shipments.AssembleRows` | app.py:9-11 | the converted time columns and the leniently converted depart column form exactly the typed rows |
| `Shipments.ImputeDestinations` | app.py:12-15 | overwriting the destination column row by row yields every row imputed |
| `Shipments.DropIncomplete` | app.py:16 | the drop loop keeps exactly the complete rows, in order |
| `Shipments.LoadData` | app.py:6-17 | the column-by-column procedure (convert arrival, destination and depart columns, overwrite the destination column with imputed values, drop incomplete rows) returns exactly `Load` |
| `Shipments.LateArrivalEndsNextDay` | app.py:12-15 | an arrival of 22:30:00 with no destination yields an end of 91800 s, on the day after the base date, not 01:30:00 |
| `Dashboard.Categorize` | app.py:24 | the category is High iff the value is present and strictly above 50; exactly 50 and a missing value are Low |
| `Dashboard.CategorizeMonotone` | app.py:24 | a larger value never has a lower category |
| `Dashboard.ColorColumn` | app.py:23-24 | the `color` column exists iff the table has a `miles_prime` column, and then holds one label per row, `High (Above 50)` iff that row's value exceeds 50 and `Low (Below 50)` otherwise |
| `Dashboard.Select` | app.py:32-35 | "Select All" returns the table unchanged; a date returns the rows whose depart date equals it, each exactly once (the length is the number of matching rows), so rows with a null date are excluded |
| `Dashboard.SelectConcat` | app.py:35 | the date filter keeps the rows' original order |
| `Dashboard.OfferedDateHasRows` | app.py:26-35 | choosing any date that the selector offers gives a non-empty selection |
| `Dashboard.Show` | app.py:37-52 | the message "No data available for the selected option." is shown iff the selection is empty; otherwise the chart gets exactly the selected rows |
| `Dashboard.UniqueDates` | app.py:26 | the distinct depart dates, without duplicates, exactly those of some row |
| `Dashboard.SortInPlace` | app.py:27 | the array is sorted ascending and is a permutation of its old contents |
| `Dashboard.IncreasingUnique` | app.py:26-28 | two ascending duplicate-free date lists with the same members are equal, so the option list is determined by the set of depart dates |
| `Dashboard.DateOptions` | app.py:26-28 | the options are "Select All" followed by every depart date of the table exactly once, strictly ascending, and no other date |

## Left out

- Reading the CSV (app.py:7) is not modelled. The input is the table after the read, one record per line. It carries the cells of `Shipment ID`, the two time columns, the depart column and `miles_prime`. An empty field, and any token the reader takes for NA, is the `Blank` cell. The error for a missing required column is not modelled.
- Columns other than those five are carried through the pipeline unchanged by `app.py`; the model does not carry them.
- The Streamlit widgets are input and output and are left out: the file uploader, the "Please upload a CSV file to begin." message, and the selectbox (app.py:20, 30, 54). The chosen option is a parameter of `Select` and `Show`.
- The Plotly timeline, its colour map and its axis ordering (app.py:38-50) are library calls. `Show` stops at the rows handed to the chart. `app.py` always names the `color` column in that call, even when no `miles_prime` column exists. What the library then does is outside the model.
- WallClock.ParseTime: rejects seconds 60 and 61, which the `%S` pattern admits; how the time conversion then treats them is not captured. Digits other than ASCII `0`-`9` are not accepted either.
- Shipments.TimeCell: the texts `now` and `today` count as malformed, so `Load` fails on them. pandas 2 reads them as the current time even under `%H:%M:%S` (pandas 1 rejects them); the clock is not modelled.
- Shipments.DateCell: the lenient date parser is a function parameter and is not modelled. A date is a day number, and a parsed depart value keeps its time of day next to its date.
- Shipments.ParseColumn: the error carries the column, the position and the text. The exact wording of the library's exception is not modelled.
- Dashboard.DateOptions: covers only non-null depart dates. How `unique()` and `sort()` order a null date among real dates depends on the array library and is not modelled.
- Dashboard.UniqueDates: does not state the first-appearance order of `unique()`, because the sort that follows discards it.
- `miles_prime` values are `real`, not IEEE floats, and a missing value is `None` (NaN). A non-numeric `miles_prime` column, where `x > 50` raises, is not modelled.
