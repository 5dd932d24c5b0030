# csv-data-analyzer in Dafny

A Dafny model of the analysis engine behind csv-data-analyzer, a Streamlit
application. It loads a CSV file into a pandas DataFrame, lets the user filter
and project it, runs correlation, testing, outlier and data-quality analyses,
and produces an HTML report. The model keeps the decisions the application
makes on the frame and proves what each one computes. It also models the
environment parsers of `config.py`.

A DataFrame is the value `Tables.Table`. It has typed columns (`Number`,
`Object` and `Other` dtypes), rows of cells (`Num(real)`, `Str`, `Missing` for
NaN/None), and one index label per row. Boolean indexing `df[mask]` is
`Tables.Select`: it keeps the positions `Seqs.Kept(mask)`, in order, with their
labels.

- `tables.dfy`: the frame, the dtype split `select_dtypes`, and missing-value counts.
- `filters.dfy`: the filter panel. The imperative `ApplyFilters` updates the view stage
  by stage, as the application does. It is proved equal to a one-shot reference
  definition, and that definition's properties are proved separately.
- `correlation.dfy`: the strong-pair scan over the correlation matrix. It is a nested
  loop proved against the specification `PairsBefore`.
- `gating.dfy`: when the t-test and the Shapiro-Wilk test run, and which samples they get.
- `outliers.dfy`: pandas' linear-interpolation quantile, the IQR fences, outlier rows,
  the outlier share and the cleaned frame.
- `quality.dfy`: completeness, duplicate rows, duplicate examples, `drop_duplicates`
  and the missing-rate chart.
- `report.dfy`: the HTML report's content, built by methods proved equal to `ReportOf`.
  The HTML text itself is not modelled; `ReportOf` describes the content.
- `config.dfy`: `get_env_bool`, `get_env_int`, the `ALLOWED_FILE_TYPES` split, and the
  settings with their defaults. The environment is a map given as input.
- `seqs.dfy`, `reals.dfy`, `wrappers.dfy`: helpers for sequences and masks, real
  arithmetic, and `Option`/`Result`.

Three behaviours of the code that the model keeps:
- An empty category selection leaves the frame unfiltered, because of the
  `if selected_values` guard at app.py:314.
- Column projection keeps the order in which the columns were selected
  (app.py:319).
- The t-test's group count is taken from `unique()`, which counts NaN as a
  value (app.py:669-670).

## Model

| member | source | states |
|---|---|---|
| Tables.SchemaSplit | app.py:270-271 | With unique column names, a column is listed as numeric exactly when its dtype is number and as categorical exactly when it is object; no column is both, and other dtypes are neither |
| Tables.SelectDtypesMember | app.py:67-68 | `select_dtypes` lists a column's name exactly when the column has the requested dtype |
| Tables.ColumnMissingPositive | app.py:87-99 | A column's null count is positive exactly when some row holds a missing cell there |
| Tables.ColumnMissingCount | app.py:215 | `isnull().sum()` of a column equals the number of missing cells in its values |
| Tables.ColumnPresentComplement | app.py:215-216 | `count()` of a column, the number of its non-missing cells, and its null count add up to the row count |
| Tables.NumValuesCount | app.py:694 | On a number column, `dropna()` keeps every non-missing cell: kept plus missing equals the row count |
| Filters.RangeFilter | app.py:300-303 | An absent column gives ColumnNotFound; otherwise exactly the rows whose cell is a number in [lo, hi] remain, in order and with their labels |
| Filters.CategoryFilter | app.py:306-315 | An absent column gives ColumnNotFound; an empty selection leaves the frame unchanged; otherwise exactly the rows whose cell is a selected value (NaN matches NaN) remain |
| Filters.Lookup | app.py:318-319 | Column names resolve exactly when every name is a column; the positions found are those columns; a failure names an absent column |
| Filters.Project | app.py:318-319 | An empty selection is the identity; an absent name is an error; otherwise the result has the selected columns in selection order, with their names and dtypes, with each cell taken from the named source column, and keeps the rows and index |
| Filters.ApplyFilters | app.py:289-322 | The staged pipeline, copy then range, category, projection and `head(max_rows)`, equals the one-shot reference definition, errors included |
| Filters.ErrorOrder | app.py:292-319 | The first failing stage decides the error: range column, then category column, then projection |
| Filters.PassMaskMeaning | app.py:292-315 | A row passes both filters exactly when it meets the range condition (when one is chosen) and the category condition (when one is chosen with a non-empty selection) |
| Filters.PanelRows | app.py:289-322 | Without an error the view holds at most max_rows rows; they are passing rows of the frame, in increasing order, with their original labels |
| Filters.PanelFirstRows | app.py:322 | A passing row is left out only when max_rows earlier passing rows fill the view |
| Filters.PanelColumns | app.py:318-322 | With no column selection the view has the frame's columns and whole rows; otherwise it has exactly the selected columns, with each cell taken from the source row and column |
| Filters.LastStagesMatch | app.py:318-322 | After both filters, projection succeeds and `head` of it is the reference result |
| Correlation.StrongPairs | app.py:633-643 | The nested scan returns exactly the specification list of strong pairs |
| Correlation.ScanRow | app.py:635-643 | The inner loop over row i appends exactly the strong pairs of that row right of the diagonal |
| Correlation.StrongPairsExact | app.py:633-643 | The pairs are in row-major order with row < column; each has \|coefficient\| >= threshold, the matrix value, both column names, and the positive label exactly when the value is > 0; every strong upper-triangle entry is listed; none twice |
| Correlation.PairsBeforeComplete | app.py:634-637 | Every strong entry above the diagonal in rows before i is listed |
| Correlation.PairsBeforeSound | app.py:636-643 | Every listed pair is a strong upper-triangle entry built from the matrix and the names |
| Correlation.PairsBeforeOrder | app.py:634-635 | The pairs appear in row-major order |
| Correlation.PairsBeforeRows | app.py:634 | After i rows, every pair lies in a row before i |
| Correlation.RowPairsComplete | app.py:635-637 | Within one row, every strong entry right of the diagonal is listed |
| Correlation.RowPairsSound | app.py:636-643 | Within one row, every listed pair is a strong entry of that row |
| Correlation.RowPairsOrder | app.py:635 | Within one row, the pairs appear in column order |
| Correlation.RowPairsRows | app.py:635 | The pairs of row i lie in row i, at columns between i and j |
| Gating.TTestGate | app.py:669-670 | The t-test runs exactly when the group column holds two distinct values, a missing value counting as one |
| Gating.TTestSamples | app.py:669-673 | When the t-test runs, its two groups are the column's two distinct values, every label is one of them, and the samples are the selections for those two groups |
| Gating.TTestSamplesInRowOrder | app.py:672-673 | When the t-test runs, each sample is read row by row: every row labelled with its group that holds a number adds that number, in row order, repeats kept |
| Gating.GroupValuesInRowOrder | app.py:672-673 | Selecting the rows whose label equals the group and then `dropna()` gives, in row order and with repeats, the number of each such row that holds one |
| Gating.MissingLabelEmptyGroup | app.py:672-673 | A NaN group never equals any row, so its sample is empty |
| Gating.ShapiroGate | app.py:694 | On a number column, Shapiro-Wilk runs exactly when at most 5000 cells are not missing |
| Outliers.Quantile | app.py:716-717 | The quantile is undefined exactly when the column has no value |
| Outliers.QuantileRange | app.py:716-717 | The quantile lies within the column's values: some value is at most it and some value is at least it |
| Outliers.QuantileMonotone | app.py:716-717 | A larger q never gives a smaller quantile, so Q1 <= Q3 |
| Outliers.InterpolateRange | app.py:716-717 | On sorted values, the interpolated quantile lies between the first and last value |
| Outliers.InterpolateMonotone | app.py:716-717 | On sorted values, the interpolated quantile grows with q |
| Outliers.IqrFences | app.py:718-720 | The fences are 4 IQR apart around the quartiles' midpoint and enclose the quartiles |
| Outliers.ColumnFences | app.py:716-720 | The fences are undefined exactly when the column has no present value |
| Outliers.OutlierMeaning | app.py:722 | A row is an outlier exactly when its cell is a number strictly outside the fences; the outlier frame holds exactly those rows with their labels |
| Outliers.InsideQuartilesNotOutlier | app.py:716-722 | A value between Q1 and Q3 is never an outlier |
| Outliers.OutlierShare | app.py:731 | The share is undefined for an empty frame and otherwise a percentage between 0 and 100 |
| Outliers.DropSelected | app.py:738 | With unique labels, removing the labels of any row selection keeps exactly the rows that were not selected |
| Outliers.CleanIsComplement | app.py:738 | With unique labels, the cleaned frame is exactly the non-outlier rows, and outliers plus clean rows make up the frame |
| Outliers.WorkedExample | app.py:716-722 | For 1, 2, 3, 4, 5 and 100 the fences are -1.5 and 8.5, and only 100 is an outlier |
| Outliers.ExampleQuartiles | app.py:716-717 | For 1, 2, 3, 4, 5 and 100, Q1 is 2.25 and Q3 is 4.75, as pandas interpolates |
| Quality.Completeness | app.py:756 | Completeness is undefined exactly when the frame has no cell |
| Quality.CompletenessMeaning | app.py:756 | Completeness is a percentage in [0, 100], and is 100 exactly when no cell is missing |
| Quality.MissingUpToMeaning | app.py:756 | The total missing count is zero exactly when no cell is missing, and is at most the number of cells |
| Quality.DuplicateRate | app.py:757 | The duplicate rate is undefined for an empty frame and otherwise lies in [0, 100] |
| Quality.DuplicateCountDoubled | app.py:757 | Appending a copy of every row raises the duplicate count by exactly the number of rows |
| Quality.WorkedExample | app.py:756-757 | For columns a (numbers) and b (strings) over the rows (1, x), (2, y), (1, x): one duplicate row, a duplicate rate of 100/3 percent, and a completeness of 100 |
| Quality.NoDuplicateRows | app.py:757 | The duplicate count is zero exactly when no two rows are equal, and then `drop_duplicates` returns the frame itself |
| Quality.DropDuplicatesMeaning | app.py:787 | `drop_duplicates` keeps the first occurrence of each row, in order, with its label; no row is lost, none repeats, and the rows removed number the duplicate count |
| Quality.AllDuplicatesValues | app.py:783 | `duplicated(keep=False)` flags rows of exactly those values of which `duplicated()` flags a row |
| Quality.DuplicateExamplesMeaning | app.py:781-784 | Every repeated row is marked by `keep=False`; at most ten examples are shown, and there are examples exactly when a duplicate exists |
| Quality.DuplicateExamplesRows | app.py:783 | The examples are the first ten rows that equal another row, in frame order and with their labels; such a row is left out only when ten earlier ones fill the list |
| Quality.Rates | app.py:769 | One missing rate per column, in column order, named after the column, each in [0, 100] |
| Quality.PercentSumPositive | app.py:770 | The rates add up to a positive number exactly when a cell is missing |
| Quality.PanelMeaning | app.py:769-778 | The chart is shown exactly when some cell is missing; its bars are the column rates, sorted by descending rate |
| Report.ValueCountsMeaning | app.py:75 | `value_counts` lists each present value once, with its number of occurrences, in order of descending count; missing values are not counted |
| Report.ValueCountsComplete | app.py:75 | Every present value of the column has a line |
| Report.TopValuesMeaning | app.py:75 | A present value is left out of the ten lines only when all ten are taken by values at least as frequent |
| Report.CategoryTableMeaning | app.py:74-84 | A column's table has at most ten lines; each line is a present value with its count and the count's share of all rows; lines are in descending count and distinct |
| Report.ValueCountsExample | app.py:74-84 | In the same frame, b's table lists x with count 2 and share 200/3 percent, then y with count 1 and share 100/3 percent |
| Report.CategoricalSectionMeaning | app.py:71-84 | The categorical section exists exactly when there is an object column; it has one table for each of the first five object columns, in order |
| Report.MissingSectionMeaning | app.py:87-99 | The missing-value section exists exactly when a cell is missing; it lists exactly the columns with a positive null count |
| Report.MissingSectionOrder | app.py:95-98 | The missing-value table lists the columns with a missing cell once each, in column order |
| Report.ReportSummary | app.py:103-198 | The report shows the row, column and missing-cell counts; `describe` exactly when there is a numeric column; the correlation matrix, over the numeric columns, exactly when there are at least two |
| Report.ReportPreview | app.py:207 | The preview is the first min(rows, 10) rows with all columns |
| Report.ReportDtypes | app.py:214-217 | One dtype line per column, with its name, its dtype, its null count, and its non-null count `count()`, the two adding up to the row count |
| Report.GenerateReport | app.py:64-226 | The report built section by section equals the report content `ReportOf` |
| Report.CategoricalTables | app.py:71-84 | The loop over the first five object columns builds exactly the categorical section |
| Report.MissingTable | app.py:87-99 | The loop over the columns builds exactly the missing-value section |
| Report.DtypeTable | app.py:214-217 | The loop over the columns builds one dtype line per column, in order |
| Config.EnvBool | config.py:14-17 | A set variable is true exactly when its lower-cased text is true, 1, yes or on; an unset one gives the default |
| Config.EnvBoolIgnoresCase | config.py:16 | Texts that lower-case to the same string give the same flag |
| Config.EnvBoolExamples | config.py:14-17 | "TRUE" and "On" are true; "" and "enabled" are false, even with a true default |
| Config.ParseInt | config.py:22 | A text parses exactly when it is an optional sign followed by at least one digit |
| Config.ParseIntString | config.py:22 | Parsing the decimal text of any integer gives that integer back |
| Config.EnvInt | config.py:19-24 | A set variable that is an integer literal gives its value; an unset or unparsable one gives the default |
| Config.ParseIntExamples | config.py:19-24 | "-42" is -42 and "+7" is 7; "4 2", "" and "+" are rejected |
| Config.Split | config.py:33 | `split(",")` gives one more part than there are commas, and no part holds a comma |
| Config.JoinSplit | config.py:33 | Joining the parts with commas restores the original text |
| Config.SplitJoin | config.py:33 | Splitting comma-free parts joined with commas gives the parts back |
| Config.AllowedFileTypes | config.py:33 | The allowed types are never empty, and they join back to the variable's text or to the default |
| Config.DefaultAllowedTypes | config.py:33 | Unset, the allowed types are csv, xlsx and json |
| Config.DefaultSettings | config.py:26-38 | In an empty environment the settings are the documented defaults |
| Config.SettingsFallbacks | config.py:29-32 | An unparsable upload size falls back to 200, and DEBUG follows its lower-cased text |

## Left out

- Streamlit UI, plotting (plotly charts), downloads and Excel/CSV export: these are I/O with no decision on the data beyond what is modelled.
- CSV reading and encoding detection (`load_csv_data`, app.py:51-62): file I/O; the model starts from a loaded frame.
- Floating-point statistics: `corr`, `describe`, `ttest_ind`, `shapiro` and `zscore` are library numerics. The correlation matrix is an input to `Correlation.StrongPairs`; for the tests, only the gates and the samples are modelled.
- The Z-score outlier branch (app.py:724-728): it depends on `stats.zscore`, and it indexes `df` with a mask made from `dropna()` values, which has no exact value model here.
- The statistics tab's own guard of two or more numeric columns (app.py:654), and the choice among the test options (app.py:655-658). The ANOVA option has no branch in the code, so nothing runs for it.
- Correlation.StrongPairs: keeps the exact coefficient instead of `round(corr_val, 3)`, and the threshold slider's 0.5-0.95 range is not imposed.
- Report.GenerateReport: the HTML markup and text, the `.1f` formatting of percentages, the file name and the `pd.Timestamp.now()` generation time are not modelled; the report is its content.
- Report.ValueCountsMeaning: pandas leaves the order of equal counts unspecified; the model breaks ties stably, in order of first appearance.
- Outliers.CleanIsComplement: requires unique index labels. A freshly loaded frame has them (labels 0, 1, 2, ...); with repeated labels, `isin` on labels would drop more rows.
- Filters.Lookup: with repeated column names pandas' `df[cols]` returns every column of that name, while the model takes the first. `read_csv` renames repeated headers, so a loaded frame never has them, but `Tables.Valid` does not exclude them.
- Report.ReportDtypes: the dtype in each line is the three-way tag `Tables.DType` (Number, Object, Other); the dtype text pandas prints at app.py:217 (`int64`, `float64`, `bool`, ...) is not modelled.
- Tables.Valid: does not tie the `Number` dtype to `Num`/`Missing` cells; lemmas that need it (Gating.ShapiroGate) require `NumericCells` of the column.
- Real numbers stand for floats: no rounding, no infinities, and NaN only as the `Missing` cell.
- Config.ParseInt: accepts literals of any length, while Python's `int()` rejects literals beyond 4300 digits, so `get_env_int` then returns the default.
- Config.ParseInt: accepts only an optional sign and ASCII digits; Python's `int()` also allows surrounding whitespace, underscores between digits and non-ASCII digits.
- Config.EnvBool: lower-cases ASCII letters only; Python's `str.lower()` also folds other letters.
- `os.getenv` is modelled as a map from names to values given as input; `run.py` is not part of this model.
