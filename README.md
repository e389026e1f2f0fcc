# Data-analysis web application: the table pipeline, in Dafny

This project models the table-processing core of a Flask application. In
that application a user uploads tables, merges two of them, cleans them and
derives columns, charts them, and asks for a linear forecast. The model
covers these parts of `app.py`:

- **Save as new** (`save_project`, action `save_new`). Picks a free project
  name: the requested name, or `"<name> (n)"`, where n is one more than the
  largest bracketed number that ends a similar existing name.
  (`project_names.dfy`)
- **Merge** (`merge_data`). Both key columns are turned into text. Then
  `pd.merge` joins them inner, left, right or outer. The join's rows are
  given as pairs of source row positions, and the merged frame is built from
  those pairs. pandas' `_x`/`_y` suffixes are applied, and a key column that
  both sides share by name is coalesced. (`merge.dfy`)
- **Data actions** (`handle_data_action`). The actions are: remove a column;
  fill missing cells, with a float fill value for numeric columns; and add a
  column computed by `+ - * /` from two columns turned into numbers, where
  division folds NaN and ±inf to 0. (`transforms.dfy`)
- **Chart data** (`get_chart_data`). An optional drill-down filter comes
  first. Then either the scatter branch gives the rows where both axes are
  numbers, or the aggregated branch gives per-key sums with their insights:
  total, mean, first highest, first lowest and number of categories.
  (`charts.dfy`, with the aggregation in `group_by.dfy`)
- **Forecast** (`get_forecast_data`). The same per-key sums are fitted by
  least squares against the positions 0..N-1. The fitted line is read at the
  next `periods` positions, and each future period gets a label.
  (`forecast.dfy`)

Shared definitions:

- `common.dfy`: `Option`, `Result`, `Distinct`, and `KeepWhere`, which turns
  a mask into ascending positions.
- `cells.dfy`: a cell is a number (an exact real), a text or missing. It
  also holds decimal parsing, `pd.to_numeric` with and without
  `errors='coerce'`, and the order in which pandas sorts group keys.
- `tables.dfy`: a frame is a list of uniquely named, equally long columns
  plus a row count. It provides `df[name]`, `df[name] = cells`, `drop` and
  row selection. The `DataFrame` class is the mutable frame that a handler
  builds with `pd.read_json` and updates in place.

The three handlers that update a frame in place, `HandleDataAction`,
`GetChartData` and `GetForecastData`, are modelled as methods over a fresh
`DataFrame` object. Each method is proved equal to a function of the stored
table and the request. `merge_data` is the function `Merge.MergeTables`,
whose in-place `astype(str)` is the function `Stringify`. `save_project`'s
naming is the function `ProjectNames.SaveAsNewName`, which has no frame.
The properties the application relies on are then proved about that
function.

## Model

| member | source | states |
|---|---|---|
| ProjectNames.TrailingNumber | app.py:177 | A number found by `\((\d+)\)$` is the bracketed number that ends the name, or ends it just before one final newline (Python's `$`). |
| ProjectNames.TrailingNumberComplete | app.py:177 | Conversely, every name ending in a bracketed number, possibly followed by one newline, yields that number. |
| ProjectNames.TrailingNumberOfNumbered | app.py:177-184 | The regular expression applied to a name made as `f"{base} ({n})"` reads back exactly n. |
| ProjectNames.SuffixNumbersAre | app.py:174-181 | Every number in brackets that ends a similar name is collected. Every collected number is 0 or such a trailing number. |
| ProjectNames.Max | app.py:183 | `max(existing_nums)` is one of the numbers and no number exceeds it. |
| ProjectNames.CollectNumbers | app.py:174-181 | The loop over the similar names builds exactly `existing_nums`: the initial 0, then each name's contributions in order. |
| ProjectNames.NextAfterLargest | app.py:183 | One more than the largest collected number is above every trailing number, and it is 1 or one more than some trailing number. |
| ProjectNames.NextNumber | app.py:174-183 | `next_num` is at least 1 and exceeds every trailing bracketed number of a similar name. It is 1 or one past such a number. |
| ProjectNames.SaveAsNewName | app.py:167-184 | A name nobody has is kept unchanged. A taken name becomes `"<name> (next_num)"`, which differs from the name and from every similar name. |
| Cells.ParseNumber | app.py:445 | The model's decimal parser, standing for `float(text)`: accepted text holds at least one digit, at most one `.`, nothing else but a leading sign, and a negative result comes from a leading `-`. |
| Cells.ParseDecimal | app.py:445 | Conversely, every literal `[sign]digits.digits` (one run may be empty) is accepted and reads as the whole part plus the fraction digits over ten to their count, negated after `-`. |
| Cells.ParseWhole | app.py:445 | Every literal `[sign]digits` is accepted and reads as its integer, negated after `-`. |
| Cells.ParseIntToString | app.py:230 | `str(i)` of an integer parses back to i. |
| Cells.ToNumeric | app.py:585-586 | `to_numeric(errors='coerce')` keeps numbers and missing cells, turns parseable text into its number and anything else into a missing cell. The column becomes numeric and keeps its length. |
| Cells.ToNumericIdempotent | app.py:585-586 | Coercing an already coerced column changes nothing. |
| Cells.ZeroFilled | app.py:604 | `to_numeric(errors='coerce').fillna(0)` gives each coerced number, or 0 where the coerced cell is missing. |
| Tables.RemoveColumn | app.py:434-435 | Dropping keeps the row count, leaves no column of that name, and changes nothing when the name is absent. |
| Tables.RemoveColumnExact | app.py:432-435 | Dropping a present column removes exactly that column: the other columns keep their order and content, and the frame stays well formed. |
| Tables.SetColumn | app.py:450 | After `df[name] = cells` the column reads back those cells and every other column reads as before. An existing column keeps its place and a new one goes last. A full column keeps the frame well formed. |
| Tables.TakeRows | app.py:576-579 | Boolean-mask selection keeps the columns and their names. Each kept row holds the cells of its source row. |
| Tables.DataFrame.Assign | app.py:450 | Assigning a column in place leaves the frame equal to `SetColumn` of its previous value. |
| Transforms.FillNaAsWritten | app.py:438-451 | `fill_na` as written, where `float` also accepts NaN text: a fill that succeeds keeps the frame well formed. |
| Transforms.NanFillFillsNothing | app.py:443-450 | As written, a numeric column filled with NaN text is accepted and saved, and its cells, missing ones included, are unchanged. |
| Transforms.FillNaRefusesOnlyNan | app.py:443-450 | The corrected fill refuses NaN text on a numeric column and agrees with the code as written on every other fill value. |
| Transforms.FillNa | app.py:438-451 | Filling fails exactly on a missing column, or on a numeric column whose fill text is not a number. Otherwise no missing cell is left, present cells keep their values, and missing cells hold the fill value (a float for a numeric column, the text otherwise). Other columns are unchanged. NaN text counts as not a number (see Findings). |
| Transforms.NumericOperand | app.py:461-462 | `pd.to_numeric` (errors='raise') succeeds exactly when every non-empty text cell parses as a number. Empty text reads as a missing cell, and the result then agrees with the coercing `ToNumeric`. |
| Transforms.Combine | app.py:464-472 | `+`, `-` and `*` give a missing cell exactly when an operand is missing. Division always gives a number: the exact quotient for a non-zero divisor, otherwise 0 (the NaN and ±inf fill). |
| Transforms.CalculatedColumn | app.py:453-476 | A calculated column is refused exactly when an operand column is missing or holds non-empty text that does not parse. With a known operator the new column combines the operands row by row and nothing else changes. With another operator the frame is unchanged. |
| Transforms.HandleDataAction | app.py:422-480 | The handler's in-place steps give `ActionOutcome`, whose fill branch is the corrected `FillNa` of the Findings row: NaN text on a numeric column is refused and not saved, where the code as written saves the unchanged frame. The frame written back stays well formed. Only a rejected fill value (or a missing fill column) skips the write-back. |
| Merge.MatchesOf | app.py:379-385 | The right rows matching a key are exactly the rows holding that key, in ascending order. |
| Merge.JoinRows | app.py:379-385 | Each join kind yields each row pair at most once, with positions inside both frames. Inner: exactly the pairs with equal key texts. Left/right: also the unmatched rows of their own side, without a partner. Outer: both. |
| Merge.JoinRowsOrder | app.py:379-385 | Inner and left joins list their rows by left row, then right row; right joins by right row, then left row. |
| Merge.UnmatchedRowsKept | app.py:379-385 | A left or outer join contains every left row, and a right or outer join every right row. |
| Merge.InnerRowsAgree | app.py:375-385 | Every inner-join row pairs a left row and a right row whose stringified keys are equal. |
| Merge.EqualTextKeysJoin | app.py:375-385 | When text keys print as themselves, a left row and a right row whose key cells hold the same text are paired by every join kind. |
| Merge.Stringify | app.py:375-376 | `astype(str)` replaces only the key column, with the text of each cell. Names, order, the other columns and the row count are kept. |
| Merge.MergedColumns | app.py:379-385 | The merged columns are the left columns (suffixed `_x` on a clash) laid out along the left partners, then the right columns less a shared key (suffixed `_y` on a clash) laid out along the right partners. Every column has one cell per join row. |
| Merge.Joined | app.py:379-385 | A successful merge is a well-formed frame with one row per join pair. The only failure is a column-name clash left after suffixing. |
| Merge.MergeTables | app.py:374-394 | The merge fails exactly when a key column is missing, the join kind is not one of the four, or the names still clash. Success yields a well-formed frame. |
| Merge.MergedLeftKey | app.py:375-385 | The merged left key column holds, row by row, the key text of the left partner. For a key shared by name it holds the right partner's text when there is no left partner. It is missing otherwise. |
| Merge.MergedRightKey | app.py:375-385 | With different key names, the right key column follows all left columns. It holds the right partner's key text, or a missing cell. |
| Merge.MergedLeftColumns | app.py:379-385 | Each left non-key column keeps its position, is suffixed `_x` when the right side has the name, and holds the left partner's cell, or a missing cell. |
| Merge.MergedRightColumns | app.py:379-385 | For shared and for distinct key names, the right columns (less a shared key) follow the left ones in order; each non-key one is suffixed `_y` when the left side has the name and holds the right partner's cell, or a missing cell where a row has no right partner. |
| GroupBy.GroupBySum | app.py:610-615 | The groups are in strictly ascending key order, their keys are exactly the present keys, each key's value is the sum of its rows' values, and the values add up to the sum over rows with a key. |
| GroupBy.GroupBySumSpec | app.py:610-615 | One group per distinct present key, never missing, keys ascending. Each value equals the independent row sum of that key. The total is the sum over rows with a key. |
| GroupBy.NoGroupsIff | app.py:610-615 | There is no group exactly when every key cell is missing. |
| Charts.DrillDown | app.py:566-579 | Without a filter the frame is unchanged. A missing filter column is the only failure. Otherwise exactly the matching rows are kept, in their order: typed equality when the value converts to the column's dtype, string equality when it does not. |
| Charts.PointsSpec | app.py:588-592 | There is one point per row where both coerced axes are numbers and none for any other row, in row order, each with that row's numbers. |
| Charts.PointsNone | app.py:595 | A column paired with itself gives no point exactly when none of its cells is a number. |
| Charts.ScatterChart | app.py:583-600 | A missing axis column is an error. Equal axes fail exactly when there is a point. Otherwise the points are those of the coerced axes, at most one per row, and the correlation is 0 exactly when there is no point. |
| Charts.ArgMax | app.py:622 | `idxmax` gives the first position holding the largest value. |
| Charts.ArgMin | app.py:623 | `idxmin` gives the first position holding the smallest value. |
| Charts.Mean | app.py:621 | The average times the number of groups is the total. |
| Charts.Summarize | app.py:620-631 | The total is the sum of the values and the average times the count is the total. "Highest" and "Lowest" are the key and value of the first group with the largest and the smallest value, and the category count is the number of distinct keys. |
| Charts.Aggregate | app.py:602-615 | A missing y column is an error. "No data" comes exactly for an empty frame or a missing x column. Equal axes are then an error. An error for no groups comes exactly when every key is missing (`idxmax` of an empty series). |
| Charts.AggregateGroups | app.py:604-636 | The chart data are the ascending per-key sums of the coerced y values. The total is the sum over rows with a key, and the category count is the number of distinct keys. |
| Charts.ScatterOn | app.py:583-600 | The in-place coercion of both axes, then reading them back, gives `ScatterChart` of the frame. |
| Charts.AggregateOn | app.py:602-636 | The in-place zero-filled y column, then the emptiness check and the pivot, give `Aggregate` of the frame. |
| Charts.GetChartData | app.py:546-642 | The handler's steps equal `ChartData`. A scatter answer has at most one point per stored row. |
| Forecast.Fit | app.py:213-220 | The fitted line satisfies both least-squares normal equations: residuals sum to 0, and residuals weighted by position sum to 0. A single sum is fitted by the horizontal line through it (slope 0, scikit-learn's minimum-norm answer). |
| Forecast.FitExact | app.py:213-220 | Two or more sums lying on a line are fitted by exactly that line. |
| Forecast.SpreadClosed | app.py:215-220 | The determinant of the normal equations is n²(n²−1)/12, so it is positive from two positions on. |
| Forecast.Predictions | app.py:223-224 | One predicted value per future period. |
| Forecast.FutureLabels | app.py:226-232 | One label per future period. |
| Forecast.FutureLabelsSpec | app.py:226-232 | With integer keys the labels read back as the integers after the last key. Otherwise label j is "Future " followed by the digits of j+1. |
| Forecast.FutureLabelsDistinct | app.py:226-232 | No two future periods share a label. |
| Forecast.Extrapolate | app.py:213-237 | No sums and no periods are errors, exactly. Otherwise the labels are those of the periods after the last key, no two alike, and value j is the least-squares line of the N sums read at position N + j. |
| Forecast.ForecastFrom | app.py:204-237 | Errors are checked in order: missing y column, missing x column, equal axes, no group to fit, no period to predict; each occurs exactly when its cause holds. On success the labels are the future labels after the last key (distinct, one per period) and the `periods` values lie on the least-squares line of the per-key sums. |
| Forecast.GetForecastData | app.py:194-243 | The handler's steps, including the in-place y coercion, equal `ForecastData`. |

## Left out

- Flask, sessions, login, flash messages, redirects, templates and the
  database are not modelled. Each handler receives the stored frame
  (`Option<Table>`) and the parsed request, and returns the answer or the
  frame to store. Ingestion (`pd.read_json`, CSV/Excel upload) is not part of
  this model.
- ProjectNames.SaveAsNewName: whether the name is taken and the list of
  similar names are parameters. The `LIKE 'base%'` query, with its SQL
  wildcard and case rules, is not modelled. The result is proved unique only
  among the names passed in.
- The similar-projects query at app.py:173 passes `user_id=` as a keyword to
  `Query.filter`, which accepts only positional criteria, so as written that
  line raises `TypeError`. The model takes the list the query is evidently
  meant to return: the user's projects whose names start with the base name.
- Floating point: cells hold exact reals. Overflow, rounding, NaN arithmetic
  beyond "missing", and the `,.2f`/`.4f` formatting of insights are not
  modelled.
- Charts.ScatterChart: the correlation insight is `PearsonOf(points)`. The
  Pearson coefficient itself is not computed.
- Forecast.Fit: the closed-form least-squares line over exact reals stands
  for scikit-learn's `LinearRegression`. Its numerical method is not
  modelled.
- Number parsing covers signed decimal literals (`12`, `-3.5`, `.5`, `7.`).
  Exponents, surrounding whitespace, `inf`, underscores and non-ASCII digits
  are not modelled. ProjectNames.TrailingNumber likewise reads ASCII digits
  only, where Python's `\d` and `int()` also take other decimal digits. NaN text is modelled only for the fill value (see
  Findings).
- `astype(str)` and the conversion of a filter value to a column's dtype are
  parameters (`render`, `coerce`). Both receive the whole column, so the
  text may depend on the column's dtype (an integer 1 prints as "1", a float
  1.0 as "1.0"). pandas' dtype inference and printing of values are not
  modelled.
- Forecast.ForecastData: `int(config.get('periods', 5))` is modelled on an
  already-parsed integer. A non-numeric `periods` is not modelled.
- The forecast's integer-label rule reads "the last key is an integer" as
  "every key cell is an integral number". This is how `read_json` gives the
  column an integer dtype. Other dtype rules are not modelled.
- Group keys of mixed types sort numbers before texts, as pandas' fallback
  sort for mixed object keys does.
- x and y naming the same column: pandas then meets that column twice. The
  model reports `SameAxes` for the forecast (`groupby(x)[x].sum()` cannot
  reset its index), for the aggregated chart once the "no data" check has
  passed (the pivot on one column), and for the scatter chart when at least
  one point is left (`corr` on a two-column selection).
- Merge: inner and left joins list the left rows in order, each followed by
  its right matches in right order (for inner joins this is the order of
  pandas 2.2 and later). Right joins list the right rows in order, each
  followed by its left matches. For outer joins pandas sorts by key; only
  the set of rows is proved.
- A forecast needs at least one group: a single group is fitted by a
  horizontal line, and only zero groups is an error.
- A drill-down filter column the frame lacks raises `KeyError`; the model
  reports it as `MissingColumn`.

## Findings

| source | as written | input that shows it | evidently intended | confidence | as-written member | corrected member |
|---|---|---|---|---|---|---|
| app.py:443-450 | `float(fill_value)` accepts "nan" (any case, optional sign), `fillna(nan)` then fills nothing, and the frame is saved with a success message | a numeric column with a missing cell, fill value "nan" | a fill value that is not a number is refused for a numeric column, so a successful fill leaves no missing cell | medium, not executed | Transforms.NanFillFillsNothing | Transforms.FillNa |
