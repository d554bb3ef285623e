# DataProcessor: a verified model of a table-cleaning utility

`act.py` defines `DataProcessor`, which loads a table, counts its null cells,
fills them in, and replaces atypical numbers with a text marker. This project
models those operations in Dafny and proves what they do.

- `Loading` (`loading.dfy`) covers the decision in `carga_de_archivo`.
  - A path ending in `.csv` goes to the CSV reader.
  - Otherwise, a path ending in `.html` goes to the HTML reader.
  - Any other path is refused. The error names the text after the path's last `.`.
- `Primality` (`primality.dfy`) covers the nested `is_prime` helper.
  - It is a method with the source's trial-division loop and early return.
  - It is proved equal to mathematical primality.
  - `int(n ** 0.5)` is modelled as the exact integer square root.
- `Quantiles` (`quantiles.dfy`) covers `Series.quantile` with its default linear interpolation.
  - The values are sorted, with a proof that the result is a permutation.
  - The rank is `h = p * (n - 1)`.
  - The result interpolates between the sorted values at positions `floor(h)` and `floor(h) + 1`.
- `Cleaning` (`cleaning.dfy`) covers the table and its passes.
  - A table is a `Table` object whose columns are updated in place.
  - A column has a name, a kind (`Numeric` or `Text`, standing for the `int64`/`float64` dtype test) and cells (`Null`, `Num(real)` or `Str(string)`).
  - `identificar_valores_nulos` is the pure function `IdentifyNulls`.
  - `sustitucion_valores_nulos` is the method `Table.FillNulls`.
  - `sustitucion_valores_atipicos` is the method `Table.FlagOutliers`.
  - Each method is proved to produce `FilledColumns` or `FlaggedColumns` of the old columns. The properties of those two functions are proved as lemmas.
- `Scenarios` (`scenarios.dfy`) works through concrete columns.
  - The column 1..9, 100 has quartiles 3.25 and 7.75, and only 100 is replaced.
  - A constant column is left alone.
  - A table where the order of the two passes changes the result.

Where the model goes beyond a fixed reading of the column types, it follows the code:
- **Kind after flagging.** `df[col] = df[col].apply(...)` assigns a column that holds the string `"Valor Atípico"` wherever a number was replaced. Pandas then stores that column with dtype `object`, so later passes no longer see it as numeric. The model therefore sets a column's kind to `Text` when the outlier pass replaces at least one of its cells. A column with nothing replaced keeps `Numeric`.
  - This makes the outlier pass idempotent (`Cleaning.FlagIdempotent`).
  - It also makes filling after flagging differ from flagging after filling (`Scenarios.OrderOfPassesMatters`).
- **Columns with no numbers.** Pandas gives quantiles of `NaN` for such a column. Every comparison with `NaN` is false, so nothing is replaced. The model states this with `Fences = Undefined | Fences(lower, upper)`.
- **Nulls.** A null is never a number. It is skipped by the quantiles and never replaced by the outlier rule.

## Model

| member | source | states |
|---|---|---|
| Loading.Dispatch | act.py:11-16 | CSV exactly when the path ends in ".csv". HTML exactly when it does not end in ".csv" and ends in ".html". Otherwise refused, reporting a suffix of the path with no '.' that is preceded by '.' unless it is the whole path. |
| Loading.AfterLastDot | act.py:16 | `split('.')[-1]`: a suffix of the string, with no '.', preceded by a '.' when it is shorter than the string |
| Loading.ExtensionIsUnique | act.py:16 | only one string fits that description, so the reported extension is exactly the text after the last '.' |
| Loading.ErrorMessage | act.py:16 | the message is the fixed Spanish text followed by the extension, and its length is the sum of their lengths |
| Loading.CsvAndHtmlPaths | act.py:11-14 | "data.csv" is read as CSV; "page.html" and "report.csv.html" as HTML |
| Loading.TextFileRefused | act.py:15-16 | "data.txt" is refused with "txt", and its error message ends in "txt" |
| Loading.UpperCaseRefused | act.py:11-16 | "data.CSV" is refused with "CSV": the extension test is case-sensitive |
| Loading.NoDotReportedWhole | act.py:15-16 | "README", which has no '.', is refused and reported whole |
| Primality.FloorSqrt | act.py:29 | `int(n ** 0.5)` is the r with r*r <= n < (r+1)*(r+1) |
| Primality.TrialDivisionIsPrimality | act.py:26-32 | n >= 2 with no divisor in 2..floor(sqrt n) holds exactly when n is prime. Both directions are proved. |
| Primality.IsPrime | act.py:26-32 | the loop with its early return answers Prime(n). That is also the trial-division condition. |
| Primality.FirstPositions | act.py:26-32 | 2, 3, 5 and 7 are prime; 0, 1, 4, 6, 8 and 9 are not |
| Quantiles.Sort | act.py:57-58 | the values in ascending order, as a permutation of the input |
| Quantiles.SortOfSorted | act.py:57-58 | values already in order sort to themselves |
| Quantiles.SortedUnique | act.py:57-58 | two sorted arrangements of the same values are equal, so the quartiles do not depend on row order |
| Quantiles.Lerp | act.py:57-58 | the interpolated value lies between its two end points |
| Quantiles.Interpolate | act.py:57-58 | the value at rank h lies between the sorted values at floor(h) and floor(h)+1, and equals the value at h when h is a whole number |
| Quantiles.InterpolateMonotone | act.py:57-58 | a larger rank never gives a smaller value |
| Quantiles.Quantile | act.py:57-58 | every quantile lies between the smallest and the largest value |
| Quantiles.QuantileFormula | act.py:57-58 | the linear method written out: with h = p * (n - 1) and lo = floor(h), the p-quantile is s[lo] + (h - lo) * (s[lo+1] - s[lo]) |
| Quantiles.QuantileMonotone | act.py:57-58 | p1 <= p2 implies quantile(p1) <= quantile(p2) |
| Quantiles.QuantileOfConstant | act.py:57-58 | every quantile of equal values is that value |
| Quantiles.QuartilesOfSorted | act.py:57-58 | on values already in order the quartiles and the median are read at ranks 0.25, 0.5 and 0.75 directly |
| Quantiles.LowerQuartile | act.py:57 | `quantile(0.25)` of the values, between the smallest and the largest of them |
| Quantiles.UpperQuartile | act.py:58 | `quantile(0.75)` of the values, between the smallest and the largest of them |
| Quantiles.Median | act.py:57-58 | the 0.5-quantile, between the smallest and the largest value; it is used to place Q1 below Q3 |
| Quantiles.QuartilesOrdered | act.py:57-59 | min <= Q1 <= median <= Q3 <= max, so the IQR is never negative |
| Quantiles.SortBounds | act.py:57-58 | the first and last sorted values bound every value |
| Cleaning.NullCount | act.py:46 | `isnull().sum()` of a column: the number of Null cells, at most the column length, and zero exactly when the column has no Null |
| Cleaning.Sum | act.py:47 | the total of the counts is zero exactly when every count is zero |
| Cleaning.SumAtMost | act.py:47 | counts each at most b sum to at most (number of counts) * b |
| Cleaning.IdentifyNulls | act.py:46-48 | one (name, count) per column, in column order. Each count is the column's number of Null cells and at most its length. The total is the sum of the counts, and it is zero exactly when no column has a Null. |
| Cleaning.TotalAtMostCells | act.py:46-48 | the total is at most columns * rows |
| Cleaning.SameNullsSameCount | act.py:46 | columns with nulls in the same places have equal counts |
| Cleaning.NullSentinel | act.py:35-38 | the value a column's nulls receive is never itself a null |
| Cleaning.ChooseSentinel | act.py:35-38 | the loop's choice of fill value, made by calling the trial-division method, is the sentinel for the column's kind and position |
| Cleaning.FillNa | act.py:36-38 | `fillna(v)`: each null becomes v, every other cell stays, and no null is left |
| Cleaning.FillColumn | act.py:34-38 | a filled column keeps its name, kind and length and has no null left |
| Cleaning.FilledColumns | act.py:34-39 | the fill pass keeps the number, order, names, kinds and lengths of the columns |
| Cleaning.FilledCell | act.py:34-38 | after the fill pass each cell is set by its column. A null in a Numeric column at prime position i becomes 1111111, and at any other position 1000001. A null in a Text column becomes "Valor Nulo". Every other cell is unchanged. |
| Cleaning.SentinelsOfFirstPositions | act.py:34-38 | Numeric columns 0..9 get 1000001, 1000001, 1111111, 1111111, 1000001, 1111111, 1000001, 1111111, 1000001, 1000001; Text columns always get "Valor Nulo" |
| Cleaning.FillKeepsWellFormed | act.py:34-39 | the fill pass keeps every column at the row count, the names distinct and the Numeric columns free of text |
| Cleaning.FillThenIdentify | act.py:34-38 | after the fill pass every null count is zero and so is the total |
| Cleaning.FillIdempotent | act.py:34-38 | filling twice gives what filling once gives |
| Cleaning.Numbers | act.py:57-58 | the values the quantiles are taken over: exactly the numbers of the column, nulls skipped |
| Cleaning.NumbersMultiplicity | act.py:57-58 | each number occurs among the quantile inputs exactly as often as it occurs in the column |
| Cleaning.OutlierFences | act.py:57-61 | the fences are undefined exactly when the column has no number. Otherwise lower <= Q1 <= median <= Q3 <= upper, and upper - lower = 4 * IQR. |
| Cleaning.IsOutlier | act.py:60-62 | a value is atypical exactly when the fences are defined and it is not between them |
| Cleaning.FlagCell | act.py:62 | the lambda of `apply`: a number outside the fences becomes "Valor Atípico", and every other cell stays as it is |
| Cleaning.FlagCells | act.py:62 | `apply` of the rule keeps the length and maps every cell by the rule |
| Cleaning.FlagColumn | act.py:56-62 | a Text column is left alone. In a Numeric column every cell is mapped by the rule under the column's own fences. The column stays Numeric exactly when nothing changed. |
| Cleaning.FlaggedColumns | act.py:56-63 | the outlier pass maps each column, keeping their number and order |
| Cleaning.FlaggedNumber | act.py:57-62 | a number x of a Numeric column becomes "Valor Atípico" exactly when x < Q1 - 1.5 * (Q3 - Q1) or x > Q3 + 1.5 * (Q3 - Q1); otherwise it stays |
| Cleaning.NonNumbersUnchanged | act.py:62 | nulls and text cells are never replaced |
| Cleaning.InterquartileNotOutlier | act.py:57-62 | a value between Q1 and Q3, in particular the median, is never flagged |
| Cleaning.ConstantFences | act.py:57-61 | equal values v have fences v and v |
| Cleaning.ConstantColumnUnchanged | act.py:56-62 | a Numeric column whose numbers all equal v has fences v and v (when it has a number), and the pass leaves it unchanged |
| Cleaning.FlagColumnIdempotent | act.py:56-62 | flagging a column twice gives what flagging once gives |
| Cleaning.FlagIdempotent | act.py:56-63 | the outlier pass is idempotent on the whole table |
| Cleaning.FlagKeepsWellFormed | act.py:56-63 | the outlier pass keeps every column at the row count, the names distinct and the Numeric columns free of text |
| Cleaning.FlagColumnKeepsNulls | act.py:62 | the outlier pass keeps a column's name and its null count |
| Cleaning.FlagKeepsNullReport | act.py:56-62 | the null report after the outlier pass equals the report before it |
| Cleaning.Table.FillNulls | act.py:34-39 | the table's columns become FilledColumns of the old columns, column by column in table order. The row count is unchanged, the table stays well formed, and the table itself is returned. |
| Cleaning.Table.FlagOutliers | act.py:56-63 | the table's columns become FlaggedColumns of the old columns, with fences computed per column. The row count is unchanged, the table stays well formed, and the table itself is returned. |
| Scenarios.SampleQuartiles | act.py:57-58 | 1..9, 100 has Q1 = 3.25 and Q3 = 7.75 |
| Scenarios.SampleFences | act.py:57-61 | 1..9, 100 has fences -3.5 and 14.5 |
| Scenarios.OneToNineAndHundred | act.py:56-62 | in a Numeric column of 1..9, 100 only the 100 becomes "Valor Atípico", and the column becomes Text |
| Scenarios.FilledQuartiles | act.py:57-58 | 1..9, 100, 1000001 has Q1 = 3.5 and Q3 = 8.5 |
| Scenarios.ConstantFives | act.py:56-62 | 5, 5, 5, 5 has an IQR of 0 and nothing is replaced |
| Scenarios.FillThenFlag | act.py:34-62 | filling first turns the null of column 0 into 1000001, which the outlier pass then replaces by "Valor Atípico" |
| Scenarios.FlagThenFill | act.py:34-62 | flagging first makes the column Text, so its null then becomes "Valor Nulo" |
| Scenarios.OrderOfPassesMatters | act.py:34-62 | the two orders of the passes give different tables |

## Left out

- Reading files. `pd.read_csv` and `pd.read_html` (act.py:12, act.py:14) are library calls doing file I/O. The model decides only the format. A parsed table enters the model as the arguments of the `Table` constructor.
- Dtype inference. The `dtype in ['int64', 'float64']` test (act.py:35) and `select_dtypes` (act.py:56) are replaced by each column's kind tag. The kind is set by the loader, and the outlier pass changes it only as described above.
- Integer versus float columns. `int64` and `float64` columns both become `Numeric` columns over `real`. The model does not track which of the two dtypes a column had.
- Floating point. Quantiles, `1.5 * IQR` and the comparisons use exact reals. The float64 rounding of pandas, and the float square root that `int(n ** 0.5)` takes for very large n, are not modelled.
- Pandas chained assignment and copy-on-write. Under these, `df[col].fillna(..., inplace=True)` (act.py:36-38) may not write back to the frame. The model does what the docstring says: each column of the table is updated in place.
- Return types. The pandas `Series` and NumPy scalar returned by `identificar_valores_nulos` are modelled as a sequence of (name, count) pairs plus a natural number.
- Duplicate column names. The `Table` constructor requires distinct names. With duplicates, `df[col]` selects several columns at once, and the passes behave outside this model.
- Cleaning.NullSentinel: its own contract says only that the fill value is not a null. The per-kind, per-position rule is stated by `Cleaning.FilledCell` and `Cleaning.SentinelsOfFirstPositions`.
- The unused `numpy` import (act.py:2).
