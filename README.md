# Boi Gordo ETL, modelled in Dafny

`desafio.py` is a monthly batch job. It does the following, in order:

1. It reads the CEPEA "Boi Gordo" price sheet: month text `MM/YYYY` and a price written with a decimal comma.
2. It normalises the sheet into a gap-free monthly series.
3. It fetches the IPCA inflation index (series 433 of the Banco Central SGS service) for the series' window.
4. It joins the index onto the series and accumulates it.
5. It restates every price in the purchasing power of March 2025.
6. It upserts the result into a stored table, with a month-over-month percentage change.
7. It writes a refined view of the series with constant descriptive columns.

Every stage that raises ends the run (`exit(1)`). This model keeps the stages and their order. Files, the clock and the index service become inputs, and an aborted run is an `Err` result.

The project's modules:

- `Wrappers` holds `Option` and `Result`. In a table, `None` is a NaN cell.
- `Domain` holds months and the run's errors. A month is the integer `year * 12 + month - 1`. Every date the script builds is a first-of-month date.
- `Text` holds decimal-comma numbers (lines 35 and 52) and `%m/%Y` month text (line 53).
- `Columns` holds `ffill` and `cumsum`. Each is a recursive definition plus the loop that computes it.
- `Normalize` is the spreadsheet stage (lines 51-60).
- `Accumulate` is the index stage (lines 32-35 and 73-75).
- `Adjust` is the correction to the reference month (lines 82-83).
- `Upsert` is the outer join with the stored table and the percentage change (lines 105-124).
- `Refine` is the refined output (lines 135-149).
- `Pipeline` is the whole run as one function, `Etl`, with the "first failure ends the run" structure.
- `Script` is the script as it runs. The frame `df_cepea` is a class whose column fields each stage reassigns in place. The method `Run` is proved to compute `Etl`.
- `Example` is a worked run on a two-row sheet with a one-month gap, plus a later upsert against a stored table.

Prices and index values are `real`. One IEEE effect is kept: the percentage change divides by the old price, so a non-zero new price over a zero old price gives an infinity, which `fillna(0)` leaves in place. That is why the change is `Finite(v) | PosInf | NegInf`.

## Model

| member | source | states |
|---|---|---|
| Text.ReplaceCommas | desafio.py:35 | every comma becomes a point and every other character is kept, position by position |
| Text.ReadDecimalComma | desafio.py:52 | the comma swap followed by float(), as also applied to the index values at line 35; DecimalCommaValue, DecimalPointValue, SignedDecimalCommaValue and SignedDecimalPointValue state what it reads, TwoSeparatorsUnreadable, TwoCommasUnreadable and TwoPointsUnreadable what it refuses |
| Text.DecimalCommaValue | desafio.py:52 | a cell of digits, one comma and digits reads as whole + frac / 10^len(frac) |
| Text.DecimalPointValue | desafio.py:35 | a value already written `digits.digits` is left alone by the comma swap and reads as whole + frac / 10^len(frac) |
| Text.SignedDecimalCommaValue | desafio.py:52 | a negative cell `-digits,digits` reads as -(whole + frac / 10^len(frac)) |
| Text.SignedDecimalPointValue | desafio.py:35 | a negative index value `-digits.digits`, a month of falling prices, reads as -(whole + frac / 10^len(frac)) |
| Text.NegativeNumeralValue | desafio.py:35 | float() on a minus sign followed by `digits.digits` gives the negated value |
| Text.TwoSeparatorsUnreadable | desafio.py:52 | a cell with two separators of either kind, as a thousands-separated price such as `1.234,56` or `1,234.56` has, cannot be read, so the stage fails |
| Text.TwoCommasUnreadable | desafio.py:52 | a cell with two commas cannot be read |
| Text.TwoPointsUnreadable | desafio.py:35 | a text holding two points is not a float numeral |
| Text.ReadMonthYear | desafio.py:53 | a month read from `%m/%Y` text lies within the range a nanosecond Timestamp can hold; NaTIsNoMonth states that the texts read as NaT are not months |
| Text.NaTIsNoMonth | desafio.py:53 | the texts to_datetime reads as NaT (empty, `NaT`, `nat`, `NAT`, `nan`, `NaN`, `NAN`) are never read as a month, so a date cell is a month, NaT, or an error, and never two of these |
| Text.MonthYearRoundTrip | desafio.py:53 | every representable month written as `MM/YYYY` reads back as the same month |
| Columns.FillForward | desafio.py:60 | ffill keeps the column's length; FillForwardIsLastKnown states each cell is the latest known value up to it |
| Columns.FillForwardIsLastKnown | desafio.py:60 | the forward fill at position i is the latest known value at or before i |
| Columns.FillForwardKeepsKnown | desafio.py:60 | a cell holding a value keeps it |
| Columns.FillForwardTakesLatest | desafio.py:60 | a missing cell takes the value of the latest earlier cell that holds one |
| Columns.FillForwardCarries | desafio.py:60 | a missing cell takes the filled value of the cell above it |
| Columns.FillForwardLeavesLeadingGap | desafio.py:60 | a cell stays missing exactly when no cell up to it holds a value |
| Columns.ForwardFill | desafio.py:60 | the loop over the column computes the forward fill |
| Columns.RunningSum | desafio.py:75 | cumsum keeps the column's length; RunningSumIsPrefixSum states each cell is the sum of the prefix |
| Columns.RunningSumIsPrefixSum | desafio.py:75 | the running sum at i is the sum of positions 0 to i |
| Columns.RunningSumStep | desafio.py:75 | the first running sum is the first value, and consecutive running sums differ by the later value |
| Columns.RunningSumOfZeros | desafio.py:75 | a column of zeros accumulates to zeros |
| Columns.CumulativeSum | desafio.py:75 | the loop carrying the total down the column computes the running sum |
| Normalize.DropUndated | desafio.py:51 | a row survives exactly when it has a date |
| Normalize.DropUndatedSingle | desafio.py:51 | a one-row sheet keeps its row exactly when the row is dated |
| Normalize.DropUndatedAppend | desafio.py:51 | dropping distributes over concatenation, so the kept rows stay in their sheet order |
| Normalize.DropUndatedAllDated | desafio.py:51 | a sheet whose every row is dated is kept whole, in order |
| Normalize.ReadRows | desafio.py:52-53 | the rows read exactly when every row's price and date can be read, and then row i is row i read |
| Normalize.DropNaT | desafio.py:54-59 | the rows kept are exactly the rows whose date is not NaT: the duplicate drop never equates NaT with a month, min() and max() skip it, and the left merge matches no calendar month with it |
| Normalize.DropNaTAppend | desafio.py:54-59 | dropping the NaT rows distributes over concatenation, so the kept rows stay in their sheet order |
| Normalize.DropNaTNoneNaT | desafio.py:54-59 | rows without a NaT date are all kept, in order |
| Normalize.DropNaTEmpty | desafio.py:58 | nothing is left exactly when every dated row is NaT, the case where min() and max() give NaT and the calendar cannot be built |
| Normalize.ReadableIsNotNaT | desafio.py:52-53 | a row that reads to a month converts and is not NaT |
| Normalize.ConvertThenRead | desafio.py:52-54 | when every cell converts, the rows that are not NaT all read |
| Normalize.ReadDatedFails | desafio.py:52-58 | the dated rows give no month to build on exactly when a cell does not convert or every date is NaT |
| Normalize.PrepareFails | desafio.py:51-59 | the stage before the fill fails, with the sheet error, exactly when the reading fails or leaves no month |
| Normalize.ParsedOfReadable | desafio.py:51-53 | a sheet whose every row is dated and reads is read row by row, nothing dropped |
| Normalize.ReadDatedIgnoresNaT | desafio.py:52-59 | a further dated row whose date is NaT and whose price converts changes nothing the reading gives |
| Normalize.NaTRowIgnored | desafio.py:51-60 | adding such a row to the sheet leaves the normalised series, or the failure, as it was |
| Normalize.DedupFirst | desafio.py:54 | after the duplicate drop no two rows share a month |
| Normalize.DedupKeepsFirst | desafio.py:54 | the row kept for a month is the first input row of that month |
| Normalize.DedupMonths | desafio.py:54 | a month has a row after the drop exactly when it had one before |
| Normalize.DedupBounds | desafio.py:54-58 | the drop keeps the earliest and latest month of the input |
| Normalize.MinMonth | desafio.py:58 | the earliest month is a month of some row and no row is earlier |
| Normalize.MaxMonth | desafio.py:58 | the latest month is a month of some row and no row is later |
| Normalize.Calendar | desafio.py:58 | the calendar from lo to hi holds hi - lo + 1 months, lo + i at position i |
| Normalize.JoinCalendar | desafio.py:59 | the left merge keeps the calendar's rows in order, each with the price of its month's row, NaN without one |
| Normalize.Prepare | desafio.py:51-59 | reading, dropping the NaT rows, dedup and the calendar merge; PrepareFails, PrepareTakesFirstPrice and CalendarRows state what it builds |
| Normalize.Normalize | desafio.py:51-60 | the whole normaliser; NormalizeFails, NormalizeCalendar, NormalizeKeepsKnownPrice, NormalizeFillsGap and NormalizeLeadingGap state what it computes |
| Normalize.NormalizeFails | desafio.py:51-64 | the stage fails exactly when a cell of a dated row does not convert, or no dated row has a month: none is dated or every date is NaT |
| Normalize.NormalizeCalendar | desafio.py:58-59 | the series is non-empty, runs over consecutive months from the earliest input month to the latest, and holds every input month |
| Normalize.NormalizeShape | desafio.py:58-59 | a normalised series is non-empty and its months are consecutive |
| Normalize.CalendarRows | desafio.py:58-60 | the series has one row per month from the minimum to the maximum input month, in ascending order |
| Normalize.PrepareTakesFirstPrice | desafio.py:54-59 | before the fill, each calendar month carries the price of its first input row |
| Normalize.NormalizeKeepsKnownPrice | desafio.py:54-60 | a month whose first input row has a price keeps that price |
| Normalize.FilledGap | desafio.py:59-60 | in the filled calendar, a month the merge left without a price has the price of the month before |
| Normalize.NormalizeFillsGap | desafio.py:59-60 | a month without a priced input row takes the price of the month before it |
| Normalize.NormalizeLeadingGap | desafio.py:59-60 | a price stays NaN exactly when no month up to it has a priced input row |
| Accumulate.ReadValues | desafio.py:35 | the values read exactly when every value text is a numeral after the comma swap, and each point keeps its date |
| Accumulate.ReadIndex | desafio.py:29-35 | the index reader; ReadIndexOutcome states each failure and the successful result |
| Accumulate.ReadIndexOutcome | desafio.py:29-35 | the index fails on a failed request, an empty payload or an unreadable value, and otherwise keeps every point and its value |
| Accumulate.IndexValueAt | desafio.py:73-74 | the merge of a month with the index, NaN read as 0; IndexValueOfPoint and IndexValueMissing state both cases |
| Accumulate.IndexValueOfPoint | desafio.py:73-74 | a month with a point dated its first day takes that point's value |
| Accumulate.IndexValueMissing | desafio.py:73-74 | a month without such a point counts as 0 |
| Accumulate.Accumulate | desafio.py:73-75 | the accumulation stage; AccumulateRows, AccumulatedIsPrefixSum and AccumulatedZero state what it computes |
| Accumulate.AccumulateRows | desafio.py:73-74 | the stage keeps every row, its month and price, and gives it its month's index value |
| Accumulate.AccumulatedIsPrefixSum | desafio.py:75 | the accumulated index at i is the sum of the index values at 0 to i, and acc[i] - acc[i-1] = ipca[i] |
| Accumulate.AccumulatedZero | desafio.py:74-75 | when every month's index value is 0, every accumulated value is 0 |
| Adjust.BaseAccumulated | desafio.py:82 | the lookup finds no value exactly when no row is of March 2025 |
| Adjust.Corrected | desafio.py:83 | the correction of one price; AdjustFormula, BaseMonthIdentity and FlatIndexKeepsPrices state its effect on the series |
| Adjust.AdjustRows | desafio.py:83 | every row keeps its columns and gains price * (1 + (base - acc) / 100), NaN where the price is NaN |
| Adjust.Adjust | desafio.py:82-87 | the correction stage; AdjustFails and AdjustFormula state when it fails and what it computes |
| Adjust.AdjustFails | desafio.py:82-87 | the correction fails, with the missing-reference error, exactly when March 2025 is absent |
| Adjust.BaseAccumulatedAt | desafio.py:82 | with one row per month, the base value is the accumulated index of the March 2025 row |
| Adjust.AdjustFormula | desafio.py:82-83 | each row keeps its month, price and index columns, and its corrected price is price * (1 + (acc_base - acc_i) / 100) |
| Adjust.BaseMonthIdentity | desafio.py:82-83 | at March 2025 the corrected price is the raw price |
| Adjust.FlatIndexKeepsPrices | desafio.py:83 | when the accumulated index never moves, no price changes |
| Upsert.OuterJoin | desafio.py:105-111 | the outer merge on the date; SortedKeys, JoinKeys and UpsertMonths state its keys and columns |
| Upsert.SortedKeys | desafio.py:105-111 | the join keys are strictly ascending and are exactly the dates of either side |
| Upsert.AscendingUnique | desafio.py:105-111 | two ascending key lists with the same dates are the same list |
| Upsert.JoinKeys | desafio.py:105-111 | each joined row carries the new price and the old price of its date, NaN for a side without that date |
| Upsert.Round6 | desafio.py:119 | the percentage is a multiple of 10^-6 within half of 10^-6 of its input |
| Upsert.Project | desafio.py:113-124 | each written row has its date, the new price and the percentage of the change between new and old |
| Upsert.Upsert | desafio.py:105-124 | the whole upsert; UpsertMonths, UpsertRow, OnlyStoredHasNoPrice, UpsertKeepsNewRow and RerunGivesZero state what it writes |
| Upsert.UpsertMonths | desafio.py:105-111 | the written table has one row per date of either input, in strictly ascending order |
| Upsert.UpsertRow | desafio.py:113-124 | each written row's price is the new price of its date and its percentage is that of the new price against the old |
| Upsert.OnlyStoredHasNoPrice | desafio.py:122-124 | a date found only in the stored table is written with no price and percentage 0 |
| Upsert.UpsertKeepsNewRow | desafio.py:105-124 | every row of the new series is in the written table with its own price |
| Upsert.StoredPercentIgnored | desafio.py:105-124 | the stored percentage column has no effect on what is written |
| Upsert.Change | desafio.py:113-115 | the relative change with its NaN and zero cases; ChangeOfPrices, ChangeZero and ChangeInfinite state every case |
| Upsert.Percent | desafio.py:118-120 | the change as a percentage rounded to 6 places; Round6 and PercentOfZero state the rounding |
| Upsert.ChangeOfPrices | desafio.py:113-114 | with both prices present and the old one non-zero, the change is (new - old) / old, so new = old * (1 + change) |
| Upsert.ChangeZero | desafio.py:113-115 | the change is 0 exactly when a side is NaN or the two prices are equal |
| Upsert.ChangeInfinite | desafio.py:113-115 | the change is infinite exactly when a non-zero new price meets a zero old price, positive exactly when the new price is |
| Upsert.Round6Exact | desafio.py:119 | a value that is already a multiple of 10^-6 is kept by the rounding |
| Upsert.PercentOfZero | desafio.py:118-120 | a change of 0 is stored as the percentage 0 |
| Upsert.RerunGivesZero | desafio.py:105-124 | upserting the same series again keeps the dates and prices and gives every date of the series percentage 0 |
| Refine.PercentAt | desafio.py:135-139 | the percentage of a month in the table; PercentOfRow states the lookup finds that month's row |
| Refine.Refine | desafio.py:135-139 | the output has exactly as many rows as the series |
| Refine.RefineRow | desafio.py:135-149 | row i keeps the series' date and corrected price, its month's percentage from the table, the three constants and the run date |
| Refine.PercentOfRow | desafio.py:135-139 | a month with a table row gets that row's percentage |
| Pipeline.Previous | desafio.py:93-98 | the previous table is the stored table as read, or empty when there is no stored file |
| Pipeline.NewRows | desafio.py:106 | the upsert takes the date and corrected price of every series row |
| Pipeline.IndexDatesDistinct | desafio.py:33-35 | an index read from a service that lists each date once has each date once |
| Pipeline.AdjustedMonths | desafio.py:73-83 | the corrected series keeps the months of the normalised series, one row each |
| Pipeline.UpsertDistinct | desafio.py:105-124 | the written table has one row per date |
| Pipeline.ConsecutiveHolds | desafio.py:58 | a gap-free series holds a month exactly when the month lies between its ends |
| Pipeline.Etl | desafio.py:48-149 | the whole run; EtlSheetFailure, EtlIndexFailure, EtlBaseMonthFailure, EtlBaseIdentity, EtlPercent and EtlRerun state what it does |
| Pipeline.EtlFromSeries | desafio.py:66-149 | the run after the normaliser; EtlIndexFailure states the window it asks the index for |
| Pipeline.EtlFromIndex | desafio.py:73-149 | the run after the index read; RerunFromIndex and ZeroIndexKeepsPrices state what it computes |
| Pipeline.EtlSheetFailure | desafio.py:48-64 | a sheet that cannot be normalised ends the run with the sheet's error |
| Pipeline.EtlIndexFailure | desafio.py:66-78 | the index is asked for the series' first to last month, and a failed read ends the run with its error |
| Pipeline.EtlBaseMonthFailure | desafio.py:80-87 | past the index, the run fails with the missing-reference error exactly when March 2025 lies outside the series |
| Pipeline.StageBaseMonth | desafio.py:82-87 | the correction of a gap-free series fails exactly when March 2025 is outside it |
| Pipeline.EtlBaseIdentity | desafio.py:82-83 | in the refined output of a successful run, row i has the series' month, and March 2025 carries its raw price |
| Pipeline.EtlPercent | desafio.py:105-149 | every refined row's percentage compares its corrected price with the stored price of its month |
| Pipeline.RowPercent | desafio.py:113-139 | the percentage looked up for a new row's month is that of its price against the old price |
| Pipeline.EtlRerun | desafio.py:48-149 | a second run on the same inputs against the table the first run wrote keeps its dates and prices, and every refined percentage is 0 |
| Pipeline.RerunFromIndex | desafio.py:73-149 | the same, from the index stage on |
| Pipeline.ZeroIndexKeepsPrices | desafio.py:74-83 | when the index is 0 for every month of the series, every corrected price is the raw price |
| Script.CepeaFrame.constructor | desafio.py:59 | the frame holds the calendar's dates and prices, and no index or corrected column yet |
| Script.CepeaFrame.FillPrices | desafio.py:60 | the Valor column is replaced by its forward fill, and nothing else changes |
| Script.CepeaFrame.MergeIndex | desafio.py:73-75 | the ipca and ipca_acumulado columns are added, and the frame is then the accumulated series |
| Script.CepeaFrame.CorrectByIndex | desafio.py:81-87 | the frame gains the corrected column, or the missing-reference error is reported and the frame is left as it was |
| Script.Run | desafio.py:48-149 | the script body, stage by stage on the frame, computes the run |
| Script.RunStages | desafio.py:66-149 | the stages after the spreadsheet, on the frame, compute the rest of the run; on success the frame keeps its dates and prices, holds the corrected column, and the refined view is built from it |
| Example.WholePrice | desafio.py:52 | a cell of digits followed by `,00` reads as that whole number |
| Example.ExampleFallingIndex | desafio.py:35 | the index value `-0.68` reads as -0.68 |
| Example.ExampleThousands | desafio.py:52 | the price `1.234,56` cannot be read |
| Example.TwoRowsParsed | desafio.py:51-53 | a two-row sheet whose rows read is read as those two rows |
| Example.ExampleParsed | desafio.py:51-53 | the sheet `01/2025 100,00`, `03/2025 110,00` reads as January 100 and March 110 |
| Example.ExamplePrepared | desafio.py:54-59 | its calendar is January to March, with February empty |
| Example.ExampleNormalized | desafio.py:51-60 | February takes January's price |
| Example.ExampleAccumulated | desafio.py:73-75 | index values 0, 1 and 2 accumulate to 0, 1 and 3 |
| Example.ExampleAdjusted | desafio.py:82-83 | corrected to March 2025, the prices are 103, 102 and 110 |
| Example.ExampleUpsert | desafio.py:105-124 | against a table with January 103 and March 110, the new February 102 and March 121 write January with no price, February at 0% and March at 10% |

## Left out

- HTTP request to the index service (lines 23-30): network I/O. The service is a function parameter from the date window to a failed request or a list of points.
- Logging (lines 8-15 and throughout): observability only.
- Reading the spreadsheet, reading and writing the CSV, and writing the Parquet file (lines 50, 93-98, 127 and 152): file I/O. The sheet and the stored table are inputs, and the outputs are returned values. A failed write is not modelled. A failed read of the sheet or of the stored table is not modelled either.
- The stored table read back from CSV is taken as exactly what the previous run wrote, with NaN as an empty cell. The CSV text round trip is not modelled.
- The API's `%d/%m/%Y` date text (line 34) is not parsed. A point arrives with its month and day of the month.
- The `strptime`/`strftime` formatting of the request window (lines 20-21 and 67-68) is left out: the window is passed as the first and last month.
- `datetime.today()` (line 144) is a clock. The run date is a parameter.
- Spreadsheet cells that Excel stores as dates or numbers are taken as text.
- Python `float()` forms other than an optional sign, digits, and an optional point and digits are read as unreadable: exponents, `inf`, `nan`, underscores and surrounding blanks.
- Float rounding, overflow and signed zero are not modelled. Prices and index values are exact reals.
- Upsert.Percent: the percentage keeps its numeric value, so the `astype(str)` rendering and the `'%'` suffix of line 119 are not modelled, because they only format a number as text.
- Pipeline.Etl: requires that the index service never lists two points of one date, and that the stored table has one row per date. pandas would repeat rows for such duplicates, and the model does not follow that.
- The dtype checks pandas makes on an empty stored table are left out. With no stored file, the join behaves as an outer join with an empty side.
- Three behaviours of the code are kept as written:
  - A duplicated month keeps its first row, because `drop_duplicates` keeps the first by default.
  - A non-zero new price over a zero old price stores an infinite percentage, not 0.
  - A date found only in the stored table loses its price, because the projection keeps only the new price.
