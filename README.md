# Solar forecasting preprocessing: a verified model of row cleaning

The solar forecasting dashboard loads a table of weather and sensor readings,
each paired with the power measured at the same time. Before it fits any model,
it cleans that table with `clean_data` in `src/preprocessing.py`. This project
models that cleaning step and the fixed feature schema next to it. It then
proves what the cleaned table looks like.

- **Schema.** `Target` is the column the models predict: `generated_power_kw`.
  `RawFeatures` lists the twenty weather and sensor columns in their declared
  order.
- **Tables.** A table is a `Frame`. It holds the column names, the row labels
  (the table library's index) and the rows. A row is a sequence of cells in
  column order, and each cell is `Some(v)` or `None` for a missing value. The
  cell type `V` is abstract, since only equality between cells matters.
  `WellFormed` says that there is one label per row and that every row has one
  cell per column.
- **Cleaning.** `CleanData` chains the three table operations that
  `clean_data` calls:
  1. `DropDuplicates` removes every row that repeats an earlier row cell for
     cell. The first copy is kept, and two missing cells count as equal.
     `Duplicated` marks the repeats, and the step keeps the rows of
     `FirstCopyMask`, its negation.
  2. `DropNa` removes every row that has a missing cell. `NotNa` is the mask
     for this step.
  3. `ResetIndex` throws away the old labels and numbers the rows 0..n-1.

  Both dropping steps are boolean-mask selections. `Masks.Filter` models them,
  and `Masks.Kept` gives the positions a mask keeps.

The main results are these:
- On a table with a column, cleaning keeps exactly the *survivors*. A survivor
  is a row that is the first copy of its value and has no missing cell.
- On a table with a column, survivors keep their relative order, and the k-th
  output row is the k-th survivor.
- No output row has a missing cell, and on a table with a column no two output
  rows are equal.
- On every table, a row value is in the output exactly when it is a complete
  row of the input; on a table with a column it appears there exactly once.
- The output is numbered 0..n-1. Before that renumbering, on a table with a
  column, every survivor keeps its original label.
- Cleaning twice gives the same table as cleaning once.
- A worked example with a repeated row and two rows holding a missing cell
  comes out as two rows, numbered 0 and 1.

One edge case limits the survivor, label and "no duplicates" results. The table library's
`drop_duplicates` returns an *empty* table unchanged, and a table counts as
empty when it has no rows **or no columns**. `DropDuplicates` models that early
return. So on a table with rows but no columns, every row is the same empty row
and all of them survive. That breaks both "no two rows are equal" and "only
the first copy survives". So the survivor and label lemmas
(`DropStepsKeepSurvivors`, `CleanKeepsSurvivorsInOrder`, `DroppingKeepsLabels`,
`DropDuplicatesKeepsFirstCopiesInOrder`) and the no-duplicates results require
at least one column.
`ZeroColumnsKeepEveryRow` and `ZeroColumnsExample` cover the column-less case.
Tables in the application are read with `pd.read_csv`
(`src/data_loader.py:5` and `:10`), which raises an error on input that has no
columns to parse. So every table the application cleans has at least one column
and is outside this corner case. The membership
results hold on every table, column-less ones included.

## Model

| member | source | states |
|---|---|---|
| `Preprocessing.RawFeaturesCount` | src/preprocessing.py:11-32 | the raw feature schema lists exactly twenty names |
| `Preprocessing.RawFeaturesDistinct` | src/preprocessing.py:11-32 | no raw feature name is listed twice |
| `Preprocessing.TargetIsNotAFeature` | src/preprocessing.py:8-32 | the target `generated_power_kw` is not one of the raw features |
| `Preprocessing.DropDuplicates` | src/preprocessing.py:39 | dropping duplicates keeps the table well formed and the columns unchanged, and never adds rows |
| `Preprocessing.DropDuplicatesKeepsFirstCopiesInOrder` | src/preprocessing.py:39 | on a table with a column, the k-th remaining row and its label are those at the k-th position holding the first copy of its value; those positions increase, and a position is kept exactly when no earlier row equals its row |
| `Preprocessing.DropDuplicatesKeepsOneOfEach` | src/preprocessing.py:39 | every input row value remains, and on a table with a column no two remaining rows are equal |
| `Preprocessing.DropNa` | src/preprocessing.py:40 | after dropping missing values every row is complete; the columns are unchanged and no rows are added |
| `Preprocessing.DropNaKeepsCompleteRowsInOrder` | src/preprocessing.py:40 | the k-th remaining row and its label are those at the k-th complete position; those positions increase, and a position is kept exactly when its row has no missing cell |
| `Preprocessing.DropNaKeepsCompleteRows` | src/preprocessing.py:40 | a row value remains exactly when it is in the input and has no missing cell |
| `Preprocessing.ResetIndex` | src/preprocessing.py:41 | the rows and columns are unchanged and the labels become 0..n-1 |
| `Preprocessing.CleanData` | src/preprocessing.py:35-42 | the cleaned table is well formed, has the input's columns, has no more rows than the input and no missing cell, and is labelled 0..n-1 |
| `Preprocessing.DropStepsKeepSurvivors` | src/preprocessing.py:39-40 | on a table with a column, the two dropping steps together select exactly the rows that are first copies and complete, with their labels |
| `Preprocessing.CleanKeepsSurvivorsInOrder` | src/preprocessing.py:39-41 | on a table with a column, the k-th cleaned row is the input row at the k-th survivor position; survivor positions strictly increase; a position survives exactly when its row is a first copy and complete |
| `Preprocessing.DroppingKeepsLabels` | src/preprocessing.py:39-40 | on a table with a column, before renumbering, the k-th remaining row carries the original label of the k-th survivor |
| `Preprocessing.CleanHasNoDuplicates` | src/preprocessing.py:39-42 | on a table with a column, no two cleaned rows are equal |
| `Preprocessing.CleanKeepsEachCompleteRowOnce` | src/preprocessing.py:39-42 | on every table, a row value is in the cleaned table exactly when it is a complete row of the input; on a table with a column it appears there once |
| `Preprocessing.ZeroColumnsKeepEveryRow` | src/preprocessing.py:39-42 | a table without columns counts as empty, so cleaning keeps all of its rows |
| `Preprocessing.ZeroColumnsExample` | src/preprocessing.py:39-42 | two equal rows of a column-less table both survive cleaning |
| `Preprocessing.DuplicatedExample` | src/preprocessing.py:39 | in the rows a, a, b, c, b, the second and fifth rows are marked as duplicates |
| `Preprocessing.DropDuplicatesExample` | src/preprocessing.py:39 | dropping duplicates from a, a, b, c, b leaves a, b, c with their original labels |
| `Preprocessing.DropNaExample` | src/preprocessing.py:40 | dropping missing values from a, b, c, where only b has a gap, leaves a, c with their labels |
| `Preprocessing.CleanExample` | src/preprocessing.py:35-42 | cleaning a, a, b, c, b, where b has a gap, yields exactly a, c labelled 0 and 1 |
| `Preprocessing.DropStepsFixClean` | src/preprocessing.py:39-40 | a table with no missing cell and no repeated row passes both dropping steps unchanged |
| `Preprocessing.CleanIsIdempotent` | src/preprocessing.py:35-42 | cleaning a cleaned table changes nothing |

## Left out

- `add_time_features` and `prepare_data` in `src/preprocessing.py` are not part of this model. `app.py` imports and calls them, but their bodies are not among the available source lines.
- `app.py` is left out. It is the dashboard shell: page layout, sidebar widgets, the upload flow and stopping the page.
- `src/data_loader.py` is left out. It reads CSV files, which is I/O in the table library.
- `src/model.py` is left out. It fits scikit-learn regression models and computes rounded MAE, RMSE and R² in floating point.
- `src/visualization.py` is left out. It builds charts with a plotting library.
- Cell values are abstract. The table library's missing markers NaN, None and NaT are all modelled as one `None`, and any two missing cells are equal, as the library treats them when finding duplicates and dropping missing values. Equality of values across dtypes (`1 == 1.0`) is not modelled.
- Column dtypes, duplicate column names and non-integer index labels are not modelled. `WellFormed` takes the place of the table library's own shape invariant.
