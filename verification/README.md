# Financial dashboards: a Dafny model of the table and chart logic

The dashboards read pre-processed fundamentals, valuation and bank data and
reshape them into presentation tables and chart layouts. This project models
that reshaping as pure Dafny functions over immutable data. It covers three
pages.

- **Company page.** It turns long-format fundamentals rows into the
  income-statement / growth / margin summary and the balance-sheet and
  cash-flow tables. Each table is a `pivot` to line item by period, then a
  `reindex` to a fixed line-item list, then a change of unit. The page also
  draws three bar-chart grids with a 4-period moving average. Its key-figure
  panel shows the latest P/E, P/B, EV/EBITDA and the market capitalisation.
- **Bank page.** It builds the `YYYYQn` period labels and derives the keycode
  dictionaries from the mapping sheet. It builds the single-bank (keycode by
  period) and multi-bank (keycode by ticker) tables with `melt`, then
  `pivot` or `pivot_table(aggfunc='first')`, then `reindex` and `rename`. It
  lays those tables out as a bar grid. Its free plot draws one keycode for
  several banks, sorted by period.
- **Sector page.** It groups the stock list into L2 sectors. It filters the
  valuation rows by ticker selection and start date, and picks the rows at
  the latest trade date. It takes an optional y-axis limit.

## Layout

| file | module | what it holds |
|---|---|---|
| `wrappers.dfy` | `Wrappers` | `Option` and `Result` |
| `seqs.dfy` | `Seqs` | distinctness, `IndexOf`, order-keeping `Filter`, first-appearance `Dedup` |
| `strings.dfy` | `Strings` | code-point order of `str`, sorted label sets, `str(int)` and `int(str)` |
| `dicts.dfy` | `Dicts` | insertion-ordered Python dictionaries: `get`, `d[k] = v`, `pop`, building from pairs, inversion |
| `frames.dfy` | `Frames` | long observations, wide tables; `pivot`, `pivot_table('first')`, `reindex`, `rename`, `concat`, unit scaling |
| `rolling.dfy` | `Rolling` | `rolling(window=4, min_periods=1).mean()` |
| `valuation.dfy` | `Valuation` | the valuation row shared by two pages |
| `company.dfy` | `Company` | the company tables and charts |
| `keydata.dfy` | `KeyData` | `extract_key_data` |
| `bank.dfy` | `Bank` | period labels, keycode dictionaries, bank tables, the bar grid, the stable sort by period |
| `linechart.dfy` | `LineChart` | `visualize_multi_ticker_data` |
| `sector.dfy` | `Sector` | `sector_ticker_list` and `plot_valuation_scatter` |

Modelling choices:

- **Cells.** A cell is an `Option<real>`, and None stands for NaN.
- **Failures.** Every place where pandas or Python raises is an explicit
  `Failure`. These are a `pivot` that meets a repeated (index, column) pair,
  a `df[cols]` that names a missing column, and a `dict.pop` of an absent
  key.
- **Labels.** Sorted label sets use the code-point order in which Python
  sorts `str`.
- **Dictionaries.** A dictionary is a sequence of pairs in insertion order.
  A repeated key overwrites the value and keeps its first position.
- **Trade dates.** The row type `ValRow<D>` is generic in its date. The sector page parses TRADE_DATE with `pd.to_datetime`, so its rows (`DatedRow`) carry an integer day number. The company page keeps TRADE_DATE as the text `read_csv` gives. Its rows (`TextRow`) carry that string, and sorting them orders the text by code points, as pandas sorts strings.

## Model

| member | source | states |
|---|---|---|
| Seqs.Filter | pages/Bank_Dashboard.py:16 | a boolean-mask selection keeps exactly the elements satisfying the mask and never adds any |
| Seqs.FilterAppend | pages/Bank_Dashboard.py:16 | a mask distributes over concatenation, so selected rows keep their relative order |
| Seqs.FilterMultiset | pages/Sector_Valuation.py:55 | a mask keeps every selected row exactly as often as it occurs, so it commutes with reordering |
| Seqs.FilterNone | pages/Sector_Valuation.py:22 | a mask that matches no row selects nothing |
| Seqs.Dedup | pages/Sector_Valuation.py:20 | `unique()` yields each value once, every value present, in first-appearance order; already-distinct input is unchanged |
| Seqs.IndexOf | pages/Bank_Dashboard.py:11 | the first position of an element, None exactly when it is absent |
| Seqs.IndexOfAppend | pages/Bank_Dashboard.py:11 | appending an element does not move the first occurrence of an element already present |
| Strings.LessIrreflexive | Company_Dashboard.py:39 | the label order pandas sorts pivot columns with is irreflexive |
| Strings.LessTransitive | Company_Dashboard.py:39 | that order is transitive |
| Strings.LessTotal | Company_Dashboard.py:39 | that order is total on distinct strings |
| Strings.LessTrichotomy | Company_Dashboard.py:224 | any two date texts are equal or one sorts before the other |
| Strings.LessThen | Company_Dashboard.py:224 | a text above `b` is above anything below `b` |
| Strings.StrictlySortedIsDistinct | Company_Dashboard.py:39 | strictly sorted labels are pairwise distinct |
| Strings.Insert | Company_Dashboard.py:39 | inserting a label into a sorted label set keeps it sorted and adds exactly that label |
| Strings.SortedDistinct | Company_Dashboard.py:39 | the pivot's axis is the distinct labels, each once, in ascending order |
| Strings.ReplaceChar | Company_Dashboard.py:120 | `col.replace('_', ' ')` changes exactly the underscores and keeps the length |
| Strings.IntToString | pages/Bank_Dashboard.py:11 | `astype(str)` of an integer is non-empty digits with an optional leading minus sign |
| Strings.IntToStringRoundTrip | pages/Bank_Dashboard.py:11 | `int(str(i)) == i`, so the text of a year or report length is unambiguous |
| Dicts.Get | pages/Bank_Dashboard.py:57 | `d.get(k)` is None exactly when `k` is not a key; otherwise it is a stored pair |
| Dicts.GetDistinct | pages/Bank_Dashboard.py:22 | with distinct keys, the lookup of the i-th key gives the i-th value |
| Dicts.Put | pages/Bank_Dashboard.py:22 | `d[k] = v` keeps the key order (appending a new key), maps `k` to `v` and changes no other key |
| Dicts.Pop | pages/Bank_Dashboard.py:23 | `pop` raises exactly when the key is absent; otherwise it removes that key and keeps every other lookup |
| Dicts.FromPairs | pages/Bank_Dashboard.py:22 | building a dictionary from pairs gives distinct keys |
| Dicts.LastForSnoc | pages/Bank_Dashboard.py:22 | appending a pair makes it the last pair for its key and leaves the other keys' last pairs |
| Dicts.FromPairsLastWins | pages/Bank_Dashboard.py:22 | a key maps to the value of its last pair and to nothing else |
| Dicts.FromPairsKeys | pages/Bank_Dashboard.py:22 | the keys are exactly the keys that occur in the pairs |
| Dicts.Invert | pages/Bank_Dashboard.py:24 | the inverse dictionary has distinct keys |
| Dicts.InvertLastWins | pages/Bank_Dashboard.py:24 | a value maps back to the last key that carries it |
| Dicts.InvertKeys | pages/Bank_Dashboard.py:24 | the inverse's keys are exactly the dictionary's values |
| Dicts.InvertRoundTrip | pages/Bank_Dashboard.py:24 | the key the inverse gives for a value carries that value in the dictionary |
| Frames.HasDuplicateCons | Company_Dashboard.py:39 | a repeated cell in `[x] + s` is inside `s` or pairs `x` with a later observation |
| Frames.HasDuplicateAppend | pages/Bank_Dashboard.py:54-55 | a repeated cell in `a + b` is inside `a`, inside `b`, or pairs one of each |
| Frames.Transpose | Company_Dashboard.py:115 | swapping index and columns keeps the length and swaps the key and column lists |
| Frames.TransposeMember | Company_Dashboard.py:115 | an observation is in the swapped list exactly when its mirror is in the original |
| Frames.TransposeDuplicate | Company_Dashboard.py:115 | swapping index and columns neither creates nor removes a repeated cell |
| Frames.FirstValueIsFirst | pages/Bank_Dashboard.py:155 | `aggfunc='first'` gives the earliest non-NaN value for the cell, NaN if there is none |
| Frames.FirstValueUnique | Company_Dashboard.py:39 | without repeated cells, the first value is the only value observed |
| Frames.FirstAgreesUnique | pages/Bank_Dashboard.py:155 | the first-value property determines the cell |
| Frames.FirstValueNoHit | pages/Bank_Dashboard.py:155 | a cell with no non-NaN observation is NaN |
| Frames.FirstValueAppend | pages/Bank_Dashboard.py:154-155 | the first value in `a + b` comes from `a` when `a` has one, else from `b` |
| Frames.Spread | Company_Dashboard.py:39 | a spread table is well formed, with exactly the requested row and column labels |
| Frames.Pivot | Company_Dashboard.py:39 | `pivot` raises exactly on a repeated (index, column) pair; otherwise both axes are the sorted distinct labels and every cell is the value observed for it, NaN if none |
| Frames.NonNullKeys | pages/Bank_Dashboard.py:155 | a row label survives `dropna` exactly when some observation with that key has a value |
| Frames.NonNullCols | pages/Bank_Dashboard.py:155 | a column label survives `dropna` exactly when some observation with that column has a value |
| Frames.PivotFirst | pages/Bank_Dashboard.py:155 | `pivot_table('first')` drops all-NaN rows and columns; its axes are the sorted labels with a non-NaN value; each cell is the first non-NaN value |
| Frames.BlankCells | Company_Dashboard.py:40 | a row added by reindex is all NaN |
| Frames.Reindex | Company_Dashboard.py:40 | `reindex` gives exactly the target rows in target order; a known label keeps its row's cells; an unknown label gives an all-NaN row |
| Frames.PivotReindexAgrees | Company_Dashboard.py:39-40 | after pivot and reindex, a mentioned key's cell is the observed value |
| Frames.Rename | pages/Bank_Dashboard.py:57 | `rename(index=d)` keeps the columns and every row's cells; each row label becomes its value in `d`, or stays as it is when `d` lacks it |
| Frames.LocMember | pages/Bank_Dashboard.py:127 | `.loc[key]` returns the cells of exactly the rows labelled `key` |
| Frames.LocDistinct | pages/Bank_Dashboard.py:127 | when labels are distinct, `.loc` of row i's label is row i's cells alone |
| Frames.ScaleTable | Company_Dashboard.py:42-44 | the unit change (×100 or ÷1e9) is applied to every number; NaN stays NaN; labels are kept |
| Frames.Realign | Company_Dashboard.py:64 | `concat` moves a row onto the union columns: a shared column keeps its value and a new column is NaN |
| Frames.Concat3 | Company_Dashboard.py:64 | concatenating three tables stacks their rows in order over the first-appearance union of their columns |
| Frames.StackedRows | Company_Dashboard.py:64 | stacking three tables realigned onto the same columns gives a well-formed table whose labels are the three label lists in order, each row keeping its cells per column |
| Frames.Column | Company_Dashboard.py:95 | `df[col]` of a column the table has lists that column's cell of every row, top to bottom |
| Rolling.MovingAverage | Company_Dashboard.py:119 | each position is the mean of the non-NaN values among it and up to three before it, NaN when there are none, same length as the input |
| Rolling.PresentEmpty | Company_Dashboard.py:119 | a window has no numbers exactly when all its cells are NaN |
| Rolling.PresentAppend | Company_Dashboard.py:119 | the numbers of two adjacent windows are those of the first, then those of the second |
| Rolling.SumAppend | Company_Dashboard.py:119 | the sum over adjacent windows is the sum of the sums |
| Rolling.Extend | Company_Dashboard.py:119 | widening a window at the end adds that position's number, if any |
| Rolling.Shrink | Company_Dashboard.py:119 | narrowing a window at the front removes that position's number, if any |
| Rolling.Slide | Company_Dashboard.py:119 | moving the window one step adds the new value and drops the one that leaves |
| Rolling.MeanOfWindow | Company_Dashboard.py:119 | the running sum and count give the window mean |
| Rolling.SlidingMean | Company_Dashboard.py:119 | the one-pass running-sum computation equals the window-by-window definition |
| Rolling.MovingAverageNoGaps | Company_Dashboard.py:119 | with no NaN, each position is the plain mean of its window |
| Rolling.PresentAll | Company_Dashboard.py:119 | with no NaN, every value of a window counts |
| Rolling.FullWindow | Company_Dashboard.py:119 | with no NaN, a full window averages its four values |
| Rolling.ExampleHead | Company_Dashboard.py:119 | `min_periods=1`: the first positions average the shorter windows (10, 15, 20) |
| Rolling.MovingAverageExample | Company_Dashboard.py:119 | 10, 20, 30, 40, 50 averages to 10, 15, 20, 25, 35 |
| Company.SectionObsMember | Company_Dashboard.py:38 | the observations come only from rows of the ticker whose keycode is in the section |
| Company.RowClashCons | Company_Dashboard.py:39 | a clash in `[x] + rows` is inside `rows` or pairs `x` with a later selected row of the same keycode and period |
| Company.SectionObsClash | Company_Dashboard.py:38-39 | the section pivot raises exactly when two selected rows share keycode and period |
| Company.SectionObsLabels | Company_Dashboard.py:38-39 | the periods and keycodes observed are exactly those of the selected rows |
| Company.SectionTable | Company_Dashboard.py:37-46 | raises exactly on a clash; otherwise the row labels are the section list in order, with sorted periods |
| Company.SectionCols | Company_Dashboard.py:39 | a period is a column exactly when a selected row reports it |
| Company.SectionCells | Company_Dashboard.py:37-46 | a cell is a number exactly when some selected row supplies one, and then it is that row's value, scaled |
| Company.PivotedCell | Company_Dashboard.py:39-40 | before scaling, the cell is the selected row's value, NaN when no row supplies it |
| Company.SuffixedIS | Company_Dashboard.py:60 | the suffixed income list is the growth part of the summary order |
| Company.GrowthNamesGet | Company_Dashboard.py:60 | the growth-name dictionary maps each income line to its `_Gr` name |
| Company.GrowthTable | Company_Dashboard.py:48-55 | raises exactly on a clash; otherwise the rows are the suffixed labels, read from YoY, in percent |
| Company.SectionFactsHold | Company_Dashboard.py:37-46 | a built section table has the shape and cell origins stacking relies on |
| Company.GrowthFactsHold | Company_Dashboard.py:48-55 | a built growth table has those facts for the YoY field |
| Company.RealignedCell | Company_Dashboard.py:64 | a section cell moved onto the union columns keeps its origin, and a new column is NaN |
| Company.StackedLabels | Company_Dashboard.py:29-33 | the stacked labels are 14 distinct labels and cover the summary order |
| Company.StackedOrigin | Company_Dashboard.py:61-64 | each stacked row reads the right keycode and field in the right unit |
| Company.FsTable | Company_Dashboard.py:57-67 | raises exactly when the income or margin pivot raises; otherwise the rows are `IS_ORDER` |
| Company.StackedShape | Company_Dashboard.py:64-65 | the stack is well formed over the union of the section periods |
| Company.StackedCell | Company_Dashboard.py:64 | each stacked cell reads its row's origin |
| Company.FsCells | Company_Dashboard.py:57-67 | each summary cell holds what the ticker's rows supply for that label's keycode and field, scaled |
| Company.ReorderedCell | Company_Dashboard.py:66 | after the reindex to `IS_ORDER`, row i reads the origin of its label |
| Company.BsTable | Company_Dashboard.py:69-76 | raises exactly on a clash; otherwise the rows are `BS` in order |
| Company.CfTable | Company_Dashboard.py:78-85 | raises exactly on a clash; otherwise the rows are `CF` in order |
| Company.PlotColumns | Company_Dashboard.py:116 | the plotted columns are the candidates present, each once |
| Company.FilteredDistinct | Company_Dashboard.py:116 | filtering distinct candidates keeps them distinct |
| Company.PlotColumnsOrder | Company_Dashboard.py:116 | the plotted columns keep candidate order |
| Company.Panels | Company_Dashboard.py:88-101 | one panel per plotted column |
| Company.ChartTable | Company_Dashboard.py:114-115 | raises exactly on a clash; both axes are sorted; a line item is a column exactly when reported, a period a row exactly when reported |
| Company.ChartAxes | Company_Dashboard.py:115 | the swapped pivot's axes are the reported line items and periods |
| Company.ChartFigure | Company_Dashboard.py:112-149 | raises exactly on a clash in the section |
| Company.ChartEmpty | Company_Dashboard.py:117-118 | the empty figure appears exactly when no candidate line item is reported |
| Company.PanelLayout | Company_Dashboard.py:88-101 | for at least one metric, panel i is at row i/2+1 and column i%2+1 with colour i mod 4, the metric's column as bars and their moving average as trend; panels never share a cell; the last row is (n+1)/2 |
| Company.CandidatesDistinct | Company_Dashboard.py:116 | no line item is a candidate twice |
| Company.ChartLayout | Company_Dashboard.py:119-123 | panel names are the reported candidates, distinct; grid rows are (n+1)/2 and height is 400 per row; dates are the reported periods, sorted |
| Company.ChartRawCell | Company_Dashboard.py:115 | a pivoted chart cell is the ticker's unscaled value for that line item and period |
| Company.ChartBars | Company_Dashboard.py:95 | each bar is the ticker's value for the panel's line item and that period, scaled |
| KeyData.LatestValue | Company_Dashboard.py:223-227 | the value is None when the ticker has no non-null value; otherwise it is the value of a row whose TRADE_DATE text no other such row sorts after |
| KeyData.LatestDetermined | Company_Dashboard.py:224 | with distinct date texts among candidates, the latest value is unique |
| KeyData.TextDateOrder | Company_Dashboard.py:13 | the date text is not parsed, so "1/9/2024" sorts after "1/10/2024" |
| KeyData.FirstMcap | Company_Dashboard.py:228-229 | no row for the ticker gives None |
| KeyData.FirstMcapIsFirst | Company_Dashboard.py:229 | the market capitalisation is the one on the ticker's first row |
| KeyData.ExtractKeyData | Company_Dashboard.py:219-230 | each multiple is the latest non-null value by the text order of TRADE_DATE, and the market cap is the first row's |
| Bank.NoQ | pages/Bank_Dashboard.py:11 | the text of an integer never contains `Q` |
| Bank.PeriodLabelRoundTrip | pages/Bank_Dashboard.py:11 | a DATE label reads back to its year and report length |
| Bank.PeriodLabelInjective | pages/Bank_Dashboard.py:11 | two periods share a label exactly when they are the same period |
| Bank.PeriodLabelExample | pages/Bank_Dashboard.py:11 | year 2025, length 1 gives `2025Q1` |
| Bank.Mapped | pages/Bank_Dashboard.py:16 | the mapping keeps exactly the rows with a DWHCode |
| Bank.CaPct | pages/Bank_Dashboard.py:19-20 | a keycode is a percentage keycode exactly when a mapped row has it with prefix `CA.` and format `pct` |
| Bank.KeyNamePairs | pages/Bank_Dashboard.py:22 | the (KeyCode, Name) pairs are exactly those of the mapped rows |
| Bank.KeycodeToName | pages/Bank_Dashboard.py:22-23 | raises exactly when no mapped row has keycode "Dividend"; otherwise keys are distinct and "Dividend" is gone |
| Bank.KeyNamesHas | pages/Bank_Dashboard.py:22 | a keycode occurs in the pairs exactly when a mapped row has it |
| Bank.KeycodeToNameGet | pages/Bank_Dashboard.py:22-23 | a keycode other than "Dividend" maps to the Name of its last mapped row, and to nothing else |
| Bank.KeycodeToNameKeys | pages/Bank_Dashboard.py:22-23 | a keycode has a name exactly when it is not "Dividend" and a mapped row has it |
| Bank.NameToKeycode | pages/Bank_Dashboard.py:24 | the reverse dictionary's keys are exactly the names |
| Bank.NameToKeycodeRoundTrip | pages/Bank_Dashboard.py:24 | a name leads through its keycode back to itself |
| Bank.MetricsDistinct | pages/Bank_Dashboard.py:51 | each statement's keycode list is non-empty and has no repeats |
| Bank.FirstMissing | pages/Bank_Dashboard.py:52 | `df[cols]` raises exactly when a listed keycode is not a column, naming one such keycode |
| Bank.MeltMember | pages/Bank_Dashboard.py:54 | `melt` gives exactly one observation per (column, row) |
| Bank.BlockDuplicate | pages/Bank_Dashboard.py:54-55 | inside one melted column, a repeated cell means two rows share an id |
| Bank.MeltKeys | pages/Bank_Dashboard.py:54 | every melted observation is labelled by a melted column |
| Bank.MeltDuplicate | pages/Bank_Dashboard.py:54-55 | the pivot after `melt` raises exactly when two kept rows share an id |
| Bank.MeltCols | pages/Bank_Dashboard.py:55 | the pivot's columns are exactly the ids of the kept rows |
| Bank.WideTable | pages/Bank_Dashboard.py:54-56 | raises exactly on an id clash; otherwise the rows are the keycodes in order and the columns are the sorted ids |
| Bank.WideCell | pages/Bank_Dashboard.py:54-56 | the cell under a row's id is that row's value |
| Bank.SinceYear | pages/Bank_Dashboard.py:52 | exactly the rows of `startperiod` or later |
| Bank.SingleTicker | pages/Bank_Dashboard.py:31-36 | exactly the rows of the ticker, over the same columns |
| Bank.SingleTable | pages/Bank_Dashboard.py:38-117 | raises exactly on a missing keycode or two rows in one period; otherwise rows are the renamed keycodes and columns the sorted periods |
| Bank.SingleCell | pages/Bank_Dashboard.py:51-58 | a cell is the value the bank reported for that keycode in that period |
| Bank.AtPeriod | pages/Bank_Dashboard.py:152 | exactly the rows of the period whose ticker is selected |
| Bank.MultiTable | pages/Bank_Dashboard.py:138-219 | raises exactly on a missing keycode, or on a repeated ticker outside the income statement; otherwise rows are the renamed keycodes and columns the banks (with a value, for the income statement) |
| Bank.MeltValues | pages/Bank_Dashboard.py:155 | a melted id has a non-NaN observation exactly when a kept row with it has a value |
| Bank.FirstWide | pages/Bank_Dashboard.py:154-156 | rows are the keycodes in order; columns are the sorted ids that have a value |
| Bank.FirstWideCell | pages/Bank_Dashboard.py:154-156 | each cell is the first non-NaN value among the rows with that id |
| Bank.MultiWide | pages/Bank_Dashboard.py:154-175 | `pivot_table('first')` for the income statement, `pivot` for the others, with their failure and column rules |
| Bank.MultiCell | pages/Bank_Dashboard.py:171-176 | a multi-bank cell is the bank's value for that keycode in the period |
| Bank.MeltFirstValue | pages/Bank_Dashboard.py:154-155 | the first value found after melting is the first in that keycode's own block |
| Bank.BlockFirst | pages/Bank_Dashboard.py:155 | a block's first value is the first non-NaN among rows with that id |
| Bank.MultiIncomeCell | pages/Bank_Dashboard.py:151-157 | a multi-bank income cell is the bank's first non-NaN value for that keycode |
| Bank.BankPanels | pages/Bank_Dashboard.py:124-127 | one bar panel per table row |
| Bank.PlotLayout | pages/Bank_Dashboard.py:119-135 | panel i is titled by row i's label at grid row i/2+1, column i%2+1, inside a grid of n//2+1 rows; no two panels share a cell |
| Bank.PlotBars | pages/Bank_Dashboard.py:124-127 | the bars of panel i are the cells of every row carrying panel i's label, one value per date column, and exactly row i's cells when labels are distinct |
| Bank.PlotSpareRow | pages/Bank_Dashboard.py:121-130 | with an even non-zero row count, the last grid row stays empty and the height covers one row fewer than the grid |
| Bank.PlotSpareRowExample | pages/Bank_Dashboard.py:121-130 | six rows give a 4-row grid of height 1200 with panels only in rows 1-3 |
| Bank.FittedPlotLayout | pages/Bank_Dashboard.py:121-130 | the fitted grid has (n+1)/2 rows (at least 1), panel i at row i/2+1 and column i%2+1, each in its own cell, the last row used, and a height of 400 per row |
| Bank.SortedPairs | pages/Bank_Dashboard.py:229 | rows sorted by (YEARREPORT, LENGTHREPORT) are ordered pairwise |
| Bank.InsertByPeriod | pages/Bank_Dashboard.py:229 | inserting one row adds exactly that row |
| Bank.InsertSorted | pages/Bank_Dashboard.py:229 | inserting into a sorted sequence keeps it sorted |
| Bank.SortByPeriod | pages/Bank_Dashboard.py:229 | the result is sorted by period and a permutation of the input |
| Bank.NoneOfPeriod | pages/Bank_Dashboard.py:229 | a sorted sequence that starts after a row holds no row of that row's period |
| Bank.InsertStable | pages/Bank_Dashboard.py:229 | insertion places the row after the rows of its own period and keeps the other periods' rows |
| Bank.OfPeriodSnoc | pages/Bank_Dashboard.py:229 | dropping the last row drops it from its period's rows only |
| Bank.SortStable | pages/Bank_Dashboard.py:229 | the sort is stable: rows of any one period keep their input order |
| LineChart.TickerTrace | pages/Bank_Dashboard.py:235-240 | a line is named after its bank and has one x and one y per selected row |
| LineChart.Traces | pages/Bank_Dashboard.py:227-240 | there is at most one line per selected bank |
| LineChart.PointsSize | pages/Bank_Dashboard.py:228-229 | sorting keeps every selected row |
| LineChart.PointsEmpty | pages/Bank_Dashboard.py:228-235 | a bank has points exactly when it has a row in or after the start year |
| LineChart.TraceNames | pages/Bank_Dashboard.py:227-240 | the lines are named after the banks with rows, in the order the banks are given |
| LineChart.LinesFrom | pages/Bank_Dashboard.py:227-240 | every line added is the non-empty line of one of the selected banks |
| LineChart.TracesAre | pages/Bank_Dashboard.py:227-240 | each line is the line of the bank it is named after |
| LineChart.TracesEmpty | pages/Bank_Dashboard.py:241-242 | there are no lines exactly when no bank has a row in or after the start year |
| LineChart.TracePoints | pages/Bank_Dashboard.py:228-238 | the points are the bank's rows from the start year on, sorted by period and stable within a period; x is the DATE label; y is ×100 exactly for a percentage keycode |
| LineChart.VisualizeMultiTicker | pages/Bank_Dashboard.py:222-258 | raises exactly when a bank is given and the keycode is no column; empty figure exactly when no bank has rows; otherwise the title and y-axis name fall back to the keycode and the `%` suffix appears exactly for a percentage keycode |
| Sector.SectorTickerList | pages/Sector_Valuation.py:10-26 | one entry per distinct L2 value in first-appearance order, each listing the tickers of the rows with that L2 in row order |
| Sector.SectorKeys | pages/Sector_Valuation.py:20 | the sectors are distinct and are exactly the L2 values present; a blank (NaN) sector lists no ticker |
| Sector.SectorMembers | pages/Sector_Valuation.py:22-24 | a ticker is listed under a sector exactly when some row gives it that non-blank sector |
| Sector.FilterValuation | pages/Sector_Valuation.py:51-52 | exactly the rows with a selected ticker and a trade date on or after the start, each kept exactly as often as it occurs and no other row kept |
| Sector.MaxDate | pages/Sector_Valuation.py:55 | the maximum trade date is NaT exactly for no rows; otherwise it is attained and bounds every date |
| Sector.MaxDateOrderFree | pages/Sector_Valuation.py:55 | the maximum does not depend on row order |
| Sector.CurrentRows | pages/Sector_Valuation.py:55 | the current rows are exactly the filtered rows that no filtered row postdates |
| Sector.CurrentRowsEmpty | pages/Sector_Valuation.py:55 | there are current rows exactly when there are filtered rows |
| Sector.CurrentRowsOrderFree | pages/Sector_Valuation.py:55 | the current rows, with multiplicity, do not depend on the order of the data |
| Sector.CurrentRowsSub | pages/Sector_Valuation.py:55 | the current rows are a sub-multiset of the filtered rows |
| Sector.YLimit | pages/Sector_Valuation.py:116-118 | an input of 0.0 means no limit; any other input is kept |
| Sector.PlotValuationScatter | pages/Sector_Valuation.py:37-96 | the box uses the filtered rows and the markers the current rows; the y range is [0, limit] exactly when a non-zero limit is set |

## Left out

- Streamlit widgets, page layout and every `st.*` call are user-interface wiring.
- File loading is I/O: `load_data`, `read_csv`, `read_excel` and the path helper in `utils/utils.py`. Every function takes its rows as parameters instead.
- `SSI_API.py` and `pages/china_hrc.py` are left out. They fetch over the network, read the clock, or load files around a plot. These files are not part of this model.
- `create_bank_plots` and `create_pe_pb_plot` are left out. Neither is among the modelled page functions. The second is a forward fill plus mean and standard deviation over floating point.
- Plotly rendering is not modelled. That covers colours other than the panel palette, templates, widths, hover modes, marker styles and the `go.Scatter`/`go.Bar` objects themselves. Figures are modelled as datatypes holding the layout facts the code computes: grid rows, height, panel positions, titles, series.
- String formatting of cells (`f"{x*100:.1f}%"`, `f"{x/1e9:,.1f}"`) is not modelled. The model keeps the numeric scaling that precedes it, and real arithmetic stands in for floating point.
- Frames.Reindex: takes the first row with a target label. pandas raises on duplicate labels, but at every call site the labels are distinct: a fresh pivot's axis (Strings.SortedDistinct), or the stacked summary's labels (Company.StackedLabels).
- KeyData.LatestValue: `pd.to_numeric(errors='coerce')` is not modelled. The valuation columns are taken as already numeric, with a non-number as None.
- KeyData.LatestValue: the descending sort by trade date is not stable, so when several rows share the latest date the model only promises one of their values. LatestDetermined pins the value down when those dates are distinct.
- KeyData.FirstMcap: a NaN market cap and a missing ticker both give None. The source distinguishes NaN from None there.
- DATE labels are compared as strings, and years and lengths are taken as integers. A float year that `astype(str)` would print as `2025.0` is not modelled.
- In `visualize_multi_ticker_data` the `keycode in df_ticker.columns` test comes after `df_ticker[keycode]` has already raised for a missing column. So only its `not df_ticker.empty` half has any effect, and that is the half the model keeps.
- The `max_selections=20` limit of the ticker widget is a user-interface limit and is not modelled.
- The plot title of the valuation box plot (`f"{metric} Distribution Since {start_date}"`) is string formatting of a date and is not modelled.
- The pivot-duplicate case is modelled as pandas behaves: `pivot` raises.
- Bank.Plot, Bank.FittedPlot: stated through PlotLayout, PlotSpareRow and FittedPlotLayout, which carry their contracts.
- Bank.PlotLayout: with repeated labels `.loc` returns several rows; the model keeps all of them as the panel's bars but not how plotly draws a two-dimensional y.

## Findings

| source | as written | input that shows it | evidently intended | confidence | as-written member | corrected member |
|---|---|---|---|---|---|---|
| pages/Bank_Dashboard.py:121-130 | the grid has `n // 2 + 1` rows, and the height is 400 times the loop variable `row`, which ends as the last panel's row | a table of 6 rows: a 4-row grid with panels in rows 1-3 only, height 1200 | `(n + 1) // 2` rows with height 400 per grid row, as the company page sizes its grids (Company_Dashboard.py:121) | medium, not executed | Bank.PlotSpareRow | Bank.FittedPlotLayout |
