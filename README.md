# SurfsUp climate API: query logic in Dafny

SurfsUp is a small Flask service over a SQLite database of Hawaiian weather
observations (`SurfsUp/app.py`). It has two tables: `measurement` (station,
date, prcp, tobs) and `station` (station). Its routes are:

- `/api/v1.0/precipitation`: date → prcp for the last 365 days of data;
- `/api/v1.0/stations`: every station id;
- `/api/v1.0/tobs`: the (date, tobs) observations of the most active station
  over the same window;
- `/api/v1.0/<start>` and `/api/v1.0/<start>/<end>`: TMIN, TAVG and TMAX of
  tobs over a date range.

This project models what each route computes as pure Dafny functions over
in-memory sequences of rows that stand in for the two tables, and proves
properties of those functions.

Modules:

- `Outcomes` (`outcomes.dfy`): `Option` and `Result`. `None` stands for SQL
  NULL and Python `None`; `Err` stands for the exceptions a route raises.
- `TextOrder` (`textorder.dfy`): byte-wise lexicographic order on strings.
  SQLite compares TEXT this way, `MAX(date)` uses it, and so do the
  `date >= …` and `date <= …` filters. The module proves that it is a total
  order and gives the lemmas for a common prefix.
- `Calendar` (`calendar.dfy`): proleptic Gregorian dates over years 1..9999,
  as in Python's `datetime`. It has a day-number conversion (day 1 is
  0001-01-01, like `date.toordinal`) and its inverse, both round trips,
  agreement with the closed-form leap-year count, and monotonicity. It also
  has the subtraction of a number of days, which fails below day 1.
- `IsoDate` (`isodate.dfy`): a strict `YYYY-MM-DD` parser and formatter. The
  format is the ISO 8601 calendar date in complete extended format. `Parse`
  accepts exactly the formatted valid dates, and the string order of
  formatted dates is their chronological order.
- `Rows` (`rows.dfy`): the query building blocks. `Where` is a `.filter`
  that keeps row order. `Select` is a column projection. A lemma describes
  a filter result as the kept rows picked out at strictly increasing
  positions.
- `Aggregates` (`aggregates.dfy`): `MIN`, `AVG` and `MAX` over a column. The
  result is all NULL on no rows. The mean is an exact real.
- `Climate` (`climate.dfy`): the measurement and station records, the
  trailing-window start, and the four routes' query results.

## Model

| member | source | states |
|---|---|---|
| TextOrder.LexLeTotal | SurfsUp/app.py:52 | any two dates are comparable under the string order `MAX(date)` uses |
| TextOrder.LexLeAntisymmetric | SurfsUp/app.py:52 | two dates that are each `<=` the other are the same string |
| TextOrder.LexLeTransitive | SurfsUp/app.py:52 | the string order is transitive |
| TextOrder.LexLtIffNotLe | SurfsUp/app.py:135-136 | `end < start` as strings exactly when `start <= end` fails, so such a range admits no date (used by Climate.TempStatsEndBeforeStart) |
| TextOrder.LexMax | SurfsUp/app.py:52 | the maximum of non-empty dates is one of them and is `>=` every one |
| TextOrder.LexLeCommonPrefix | SurfsUp/app.py:59 | comparing two dates with a shared prefix is comparing what follows it |
| Calendar.DaysInMonth | SurfsUp/app.py:53 | every month has 28 to 31 days |
| Calendar.DaysBeforeYearIsClosedForm | SurfsUp/app.py:54 | days before year y, summed year by year, equal 365(y-1) + (y-1)/4 - (y-1)/100 + (y-1)/400 |
| Calendar.ToOrdinal | SurfsUp/app.py:54 | a valid date maps to a day number in 1..3652059 (0001-01-01 to 9999-12-31) |
| Calendar.FromOrdinal | SurfsUp/app.py:54 | every day number in range maps back to a valid date with that day number |
| Calendar.FromOrdinalToOrdinal | SurfsUp/app.py:54 | a date converted to its day number and back is the same date |
| Calendar.ToOrdinalInjective | SurfsUp/app.py:54 | distinct valid dates have distinct day numbers |
| Calendar.ToOrdinalMonotone | SurfsUp/app.py:54 | one date is no later (year, then month, then day) than another iff its day number is no greater |
| Calendar.SubtractDays | SurfsUp/app.py:54 | subtracting k days succeeds iff the day number minus k is at least 1, and the result then has exactly that day number |
| IsoDate.Format | SurfsUp/app.py:53 | a formatted date has the `YYYY-MM-DD` shape |
| IsoDate.Parse | SurfsUp/app.py:53 | an accepted string is the formatting of a valid date |
| IsoDate.ParseFormat | SurfsUp/app.py:53 | parsing a formatted valid date gives the date back |
| IsoDate.ParseSucceedsIff | SurfsUp/app.py:53 | `Parse(s) == Some(d)` iff d is valid and formats to s |
| IsoDate.ParseRejectsBadShape | SurfsUp/app.py:53 | a string without four digits, '-', two digits, '-', two digits is rejected |
| IsoDate.FormatOrder | SurfsUp/app.py:59 | formatted dates compare as strings exactly as their day numbers compare |
| Rows.Where | SurfsUp/app.py:59 | a filter never adds rows |
| Rows.WhereCounts | SurfsUp/app.py:59 | a filter keeps every copy of each wanted row and no copy of any other |
| Rows.WhereMembers | SurfsUp/app.py:59 | a row is in the filter result iff it is an input row that passes the filter |
| Rows.WhereAppend | SurfsUp/app.py:59 | filtering a concatenation is concatenating the filtered parts (scan order is kept) |
| Rows.Select | SurfsUp/app.py:58 | a projection has one entry per row, the column of that row, in order |
| Rows.SelectAppend | SurfsUp/app.py:58 | projecting a concatenation is concatenating the projections |
| Rows.KeptIndicesSelect | SurfsUp/app.py:59 | the kept positions are strictly increasing and are exactly the positions of rows that pass |
| Rows.WhereIsSelection | SurfsUp/app.py:59 | the filter result is the input rows at the kept positions, in increasing order |
| Aggregates.Min | SurfsUp/app.py:121 | MIN of non-empty values is one of them and is `<=` each |
| Aggregates.Max | SurfsUp/app.py:123 | MAX of non-empty values is one of them and is `>=` each |
| Aggregates.SumBetween | SurfsUp/app.py:122 | values between lo and hi sum to between n·lo and n·hi |
| Aggregates.MeanBetween | SurfsUp/app.py:122 | a total between n·lo and n·hi has its mean between lo and hi |
| Aggregates.MeanIsQuotient | SurfsUp/app.py:122 | AVG of non-empty values is their sum over their count |
| Aggregates.Summarise | SurfsUp/app.py:119-127 | all three NULL iff no values; otherwise MIN and MAX occur among them and bound every value, MIN <= AVG <= MAX, and AVG·n is the sum |
| Climate.MaxDate | SurfsUp/app.py:52 | NULL iff there are no measurements; otherwise some row's date, `>=` every row's date |
| Climate.WindowStart | SurfsUp/app.py:52-54 | no rows: NoMeasurements; latest date not `YYYY-MM-DD`: MalformedDate; latest day number <= 365: DateOutOfRange; otherwise `Ok` of a valid date whose day number is the latest date's minus exactly 365 |
| Climate.WindowText | SurfsUp/app.py:94-96 | the window start as a `YYYY-MM-DD` string that parses back to the window start date, with the same failures |
| Climate.WindowOfLatestExample | SurfsUp/app.py:52-54 | latest date 2017-08-23 gives window start 2016-08-23 (no 29 February in between, so 365 days is one calendar year) |
| Climate.WindowAcrossLeapDayExample | SurfsUp/app.py:52-54 | latest date 2016-08-23 gives window start 2015-08-24: the window holds 2016-02-29, so 365 days falls one day short of a calendar year |
| Climate.WindowFilterIsChronological | SurfsUp/app.py:59 | for a parseable row date, `date >= start` as strings iff the row is on or after the day 365 days before the latest |
| Climate.PrecipitationRowsSnoc | SurfsUp/app.py:57-61 | the query rows (`PrecipitationRows`): one more scanned row adds its (date, prcp) at the end iff its date is in the window |
| Climate.PrecipitationRowsSelect | SurfsUp/app.py:57-61 | the query rows (`PrecipitationRows`) are the (date, prcp) of exactly the measurements dated `>=` start, at strictly increasing positions |
| Climate.SelectedDateKeys | SurfsUp/app.py:57-64 | a last-row map over the (date, prcp) of the rows dated `>=` start has as keys exactly those dates |
| Climate.SelectedDateLastWins | SurfsUp/app.py:64 | in that map each key holds the prcp of the last row, in scan order, carrying that date |
| Climate.DateMap | SurfsUp/app.py:64 | the dict comprehension: one key per distinct first component of the rows, each mapped to the second component of the last row with that key |
| Climate.LastRowMapSnoc | SurfsUp/app.py:64 | setting the entry for one more row keeps the map a last-row-wins map of the longer row list |
| Climate.PrecipitationKeys | SurfsUp/app.py:57-64 | the map's keys are exactly the row dates that are `>=` the start |
| Climate.PrecipitationLastWins | SurfsUp/app.py:64 | each key's value is the prcp of the last row in scan order with that date |
| Climate.PrecipitationMapIsWindow | SurfsUp/app.py:57-64 | the map has one key per distinct in-window date, no other key, and the last such row's prcp for each |
| Climate.Precipitation | SurfsUp/app.py:52-64 | fails exactly when the window start fails, with the same error; otherwise the map is the window precipitation map |
| Climate.PrecipitationWindowEdgeExample | SurfsUp/app.py:57-64 | with latest 2017-08-23, 2016-08-22 is never a key, and 2016-08-23 is a key whenever a row carries it |
| Climate.StationIds | SurfsUp/app.py:73-76 | one id per station row, in row order |
| Climate.StationIdsKeepDuplicates | SurfsUp/app.py:76 | an id occurs in the listing as many times as rows carry it (no dedup) |
| Climate.StationIdsAppend | SurfsUp/app.py:76 | listing concatenated tables is concatenating the listings (no sorting) |
| Climate.CountFor | SurfsUp/app.py:87-89 | a station's group count equals the number of times its id occurs in the station column |
| Climate.CountForPositive | SurfsUp/app.py:86-89 | a station's group count is positive iff the station occurs in the measurements |
| Climate.OutranksTotalOrder | SurfsUp/app.py:89-90 | ranking by count descending, then id, is reflexive, total, transitive and antisymmetric |
| Climate.Leader | SurfsUp/app.py:89-90 | the chosen candidate is one of the candidates and outranks all of them |
| Climate.MostActiveStation | SurfsUp/app.py:86-91 | NULL iff there are no measurements; otherwise a station that occurs, whose count is `>=` every station's count, and the smallest id among those tied |
| Climate.LeaderOutranks | SurfsUp/app.py:89-90 | the leader's count is `>=` every station's, with the smallest id among equal counts |
| Climate.MostActiveUnique | SurfsUp/app.py:86-91 | at most one station satisfies the most-active description |
| Climate.StrictLeaderChosen | SurfsUp/app.py:86-91 | a station with strictly more rows than every other is the one chosen |
| Climate.StationTobsSelects | SurfsUp/app.py:99-107 | the tobs query result (`StationTobs`) is the (date, tobs) of the rows at that station dated `>=` start, one per row, in order |
| Climate.StationTobsEntries | SurfsUp/app.py:99-107 | every entry comes from a row with that station and a date `>=` start |
| Climate.MostActiveTobs | SurfsUp/app.py:86-107 | no rows: NoMeasurements; window failures propagate; otherwise the most active station's in-window (date, tobs) rows in order |
| Climate.RangeFilterIsInRange | SurfsUp/app.py:118-138 | the query filter is `date >= start`, plus `date <= end` exactly when end is truthy (`HasEnd`: given and non-empty, as `if not end` tests) |
| Climate.RangeTobsMembers | SurfsUp/app.py:118-138 | a tobs value is aggregated iff some in-range row carries it |
| Climate.RangeTobsSelects | SurfsUp/app.py:118-138 | the aggregated column (`RangeTobs`) is the tobs of the in-range rows, in order |
| Climate.RangeTobsCons | SurfsUp/app.py:118-138 | the aggregated column of a table is the first row's tobs, if that row is in range, followed by the column of the rest |
| Climate.InRangeCount | SurfsUp/app.py:118-138 | the count of rows in range is positive iff some row is in range |
| Climate.RangeTobsCountsRows | SurfsUp/app.py:118-138 | the aggregated column has one entry per row in range and sums to the total of their tobs |
| Climate.RangeMeanOverRows | SurfsUp/app.py:122 | TAVG is the total tobs of the rows in range divided by their number |
| Climate.SomeMatchIsAggregated | SurfsUp/app.py:118-145 | some row is in range iff the aggregated column is non-empty |
| Climate.SummaryOfRangeTobs | SurfsUp/app.py:118-145 | the summary of the in-range tobs satisfies the range-summary description |
| Climate.TempStats | SurfsUp/app.py:114-145 | all NULL iff no row is in range; otherwise TMIN and TMAX are tobs of in-range rows and bound every in-range tobs, TMIN <= TAVG <= TMAX, and TAVG is the total tobs of the in-range rows divided by their number |
| Climate.TempStatsEndBeforeStart | SurfsUp/app.py:129-145 | an end before the start gives all NULL, not an error |
| Climate.FutureStartExample | SurfsUp/app.py:118-127 | a start after every row date gives all NULL |
| Climate.JanuaryRowsInRange | SurfsUp/app.py:129-138 | over 2017-01-01..2017-01-31 the January rows are kept and a February row is not |
| Climate.JanuaryStatsExample | SurfsUp/app.py:129-145 | January readings 60, 65, 70 give TMIN 60, TAVG 65, TMAX 70 |

## Left out

- Flask routing, the welcome text, `jsonify` and `app.run` (`SurfsUp/app.py:28-44`, `66`, `78`, `109`, `147`, `151-152`) are HTTP plumbing. JSON output is modelled as Dafny values: a map, sequences and a `Summary` record.
- Engine creation, table reflection and the global session (`SurfsUp/app.py:12-22`) are database wiring. The tables are given as sequences of rows.
- Scan order is taken to be the order of the input sequence. SQLite's actual storage order is not modelled.
- Climate.MostActiveStation: `.order_by(count desc).first()` returns an unspecified station among those tied for the greatest count. The model fixes one of them, the lexicographically smallest id, so its contract is deterministic where the source is not.
- Climate.WindowStart: the window-start `datetime` is bound to SQLite by the driver. The model compares the column with the window start's `YYYY-MM-DD` text, inclusively. How the driver formats that value, for example with an appended time of day that would leave out the start day itself, is foreign library behaviour and is not modelled.
- IsoDate.Parse: `strptime("%Y-%m-%d")` also accepts one-digit months and days, a day padded with a space instead of a zero (`2017-08- 5`), and digits outside ASCII. The model accepts only the strict ten-character form. `strptime` rejects a year of 0000 and dates past 9999-12-31; so does the model.
- Climate.WindowStart: Python raises `OverflowError` when a date minus 365 days falls before 0001-01-01. The model returns `DateOutOfRange` instead; a NULL `MAX(date)` raises `TypeError`, which the model returns as `NoMeasurements`.
- Floating point: prcp and tobs are `real`, and `AVG` is the exact real mean, not SQLite's double-precision sum and division.
- `SurfsUp/app.py:135` lacks the leading `.` of a chained `.filter(...)`, so the file does not parse. The model gives the bounded branch the evident meaning, `date >= start` and `date <= end`, written like the unbounded branch at line 125. `SurfsUp/app.py:151` uses `name` for `__name__`; that line is not part of the model.
- `start` and `end` are not validated: a string that is not a date is compared as text, as the source does. No validation error is modelled, because the code raises none.
- The unused `numpy` and `pandas` imports (`SurfsUp/app.py:2-3`) are not part of this model.
