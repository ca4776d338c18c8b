# Cross-year imputation of missing irradiance readings

This project models `fill_missing_irradiance_data`, the gap-filling step of a
small solar-irradiance toolkit. The step takes a table with one row per
5-minute time slot. Each row holds two identifier columns (`Date`, `Day`)
followed by one irradiance reading per year, and any reading may be missing
(NaN). The function:

- copies the table, so the caller's table is never written;
- walks the rows of the copy in order;
- computes for each row the mean of its present readings, skipping missing
  ones (`np.nanmean`);
- when that mean exists, replaces every missing reading of the row with it
  and keeps every present reading;
- when the row has no reading at all, leaves it as it is;
- reports the number of missing readings before and after the fill.

In the model (module `Imputer`, file `imputer.dfy`):

- A reading is a `Cell = Option<real>`, where `None` is NaN.
- A row is `Row(date, day, years)`.
- The specification of the whole call is the pure function `Impute`, a row-by-row
  map of `FillRow`. `FillRow` is built from `NanMean`, the mean of `Present`,
  and `FillNa`.
- The function as the source runs it is imperative:
  - `FillMissingIrradianceData` copies the input array into a fresh one.
  - `FillRowsInPlace` then overwrites the copy's rows one at a time in a loop.
  - The method returns the copy together with the before and after missing
    counts. In the source those counts are printed.
  - Its `ensures` tie the new array to `Impute` of the input and state that the
    input array is unchanged.
- The properties the source promises are proved as lemmas about `Impute` and
  `FillRow`:
  - identifiers and shape are kept;
  - present readings are kept;
  - gaps take the row mean;
  - fully missing rows are left alone;
  - rows are independent;
  - the missing count afterwards is the cells of fully missing rows;
  - the fill is idempotent.
- The usage example's five-slot table is checked as well. Its missing count
  goes from 5 to 0.

## Model

| member | source | states |
|---|---|---|
| Imputer.FillMissingIrradianceData | correct_missing_data.py:4-53 | returns a fresh table equal to `Impute` of the input, leaves the input table unchanged (the `df.copy()`), and returns the missing counts of the input and of the result |
| Imputer.FillRowsInPlace | correct_missing_data.py:35-50 | after the row loop, every row of the table has been replaced by its filled version, i.e. the array equals `Impute` of its old contents |
| Imputer.FillRowSpec | correct_missing_data.py:37-48 | filling a row keeps its date, day, width and present readings; if the row has any reading, every missing cell becomes the mean of the present readings and none stays missing; a row with no reading is returned unchanged |
| Imputer.NanMeanUndefined | correct_missing_data.py:39-46 | the row mean is undefined (NaN) exactly when every reading of the row is missing |
| Imputer.NanMeanWithinRange | correct_missing_data.py:39-41 | any bounds that hold for every present reading of a row also hold for the row mean used to fill it |
| Imputer.MeanWithinRange | correct_missing_data.py:41 | the mean of readings that all lie in [lo, hi] lies in [lo, hi] |
| Imputer.SumBounds | correct_missing_data.py:41 | the sum of n readings in [lo, hi] lies in [n*lo, n*hi] |
| Imputer.PresentWithinRange | correct_missing_data.py:41 | every value averaged by the NaN-skipping mean respects any bounds that all present readings of the row respect |
| Imputer.FillNa | correct_missing_data.py:48 | `fillna(v)` keeps the length, keeps every present cell and turns every missing cell into `v` |
| Imputer.MissingCount | correct_missing_data.py:29 | a row's missing count is at most its width |
| Imputer.MissingCountExtremes | correct_missing_data.py:29 | a row's missing count is 0 exactly when it has no gap, and equals its width exactly when it has no reading |
| Imputer.Present | correct_missing_data.py:41 | the present readings plus the missing cells make up the whole row |
| Imputer.ImputeRow | correct_missing_data.py:35-48 | output row i is the filled version of input row i |
| Imputer.RowsIndependent | correct_missing_data.py:35-48 | two tables that agree on row i produce the same output row i, whatever their other rows hold |
| Imputer.ImputeAppend | correct_missing_data.py:35-48 | imputing two stacked tables equals imputing each and stacking the results, so the fill of a prefix never depends on later rows |
| Imputer.ImputeKeepsShape | correct_missing_data.py:21-26 | the result has the same number of rows, the same `Date` and `Day` in every row, and the same number of year columns |
| Imputer.ImputeKeepsPresent | correct_missing_data.py:48 | a year cell that held a reading holds the same reading afterwards |
| Imputer.ImputeFillsWithRowMean | correct_missing_data.py:39-48 | in a row with at least one reading, every formerly missing cell holds the mean of that row's original readings, and no cell of that row is missing afterwards |
| Imputer.ImputeLeavesAllMissingRow | correct_missing_data.py:43-46 | a row whose readings are all missing comes out exactly as it went in |
| Imputer.ImputeMissingCount | correct_missing_data.py:29-52 | the final missing count equals the number of cells in fully missing rows, and this is at most the initial missing count |
| Imputer.FillRowIdempotent | correct_missing_data.py:41-48 | filling an already filled row changes nothing |
| Imputer.ImputeIdempotent | correct_missing_data.py:35-48 | running the imputer on its own output returns that output unchanged |
| Imputer.SampleMissingBefore | correct_missing_data.py:59-67 | the usage example's table has five missing readings |
| Imputer.SampleHasNoEmptySlot | correct_missing_data.py:59-67 | every slot of the usage example's table has at least one reading, so no cell belongs to a fully missing row |
| Imputer.RunSample | correct_missing_data.py:59-74 | running the imputer on the usage example's table reports 5 missing readings before and 0 after |
| Imputer.SampleFirstSlot | correct_missing_data.py:59-67 | the 00:00 slot's missing 2015 reading is filled with (0.1 + 0.15 + 0.12) / 3 and its other readings are kept |
| Imputer.TwoGapRow | correct_missing_data.py:46-48 | a slot with readings 0.1 and 0.12 and two gaps gets 0.11 in both gaps |

## Left out

- `visualizing_irradiance_3d.py` is not part of this model. It reads a spreadsheet and draws 3D plots, which is I/O and graphics with no logic to prove.
- The `print` calls at lines 28, 29 and 52, and the example's prints at lines 69-78, are not modelled as output. The two missing counts are returned as values instead, and the column list is implicit in the `years` field.
- Readings are exact reals, not IEEE doubles. Rounding in `np.nanmean`'s sum and division is not modelled, so the proved means are exact.
- The RuntimeWarning that `np.nanmean` emits on an all-NaN row is not modelled. Its NaN result is modelled as `None`.
- pandas specifics are not modelled: column labels, dtypes, the index, `iterrows` returning a copy of each row, and `.loc` assignment. A table is an array of rows, and the first two columns are the structural fields `date` and `day`.
- A table with fewer than two columns, or with non-numeric year columns, cannot be expressed in this model.
- `date` is kept as an uninterpreted string. The source's `pd.to_datetime` parsing is not modelled.
