# Execution API and column variables of a SciSheets table

SciSheets evaluates a spreadsheet-like `Table` by running the formulas of
its columns as Python code over a shared namespace. In that namespace every
column is a variable holding the column's values. This project models two
pieces of that machinery in Dafny.

- The execution API (`API` and `APIFormulas` in `mysite/scisheets/core/api.py`)
  is modelled as one class, `ExecutionApi.Api`. It holds the table, the list
  of names excluded from automatic updates and the dependency counter. It
  covers:
  - column lookup by name or 1-based position;
  - reading values through the column's data class;
  - writing values, which silently does nothing for excluded or absent names;
  - visibility toggling, which checks every name before changing anything;
  - creating and deleting columns, with the counter bookkeeping;
  - binding columns into the namespace;
  - the reconciliation pass `updateTableCellsAndColumnVariables`;
  - exchange of columns with dataframes.
- The column-variable snapshot (`ColumnVariables.ColumnVariable`) keeps a
  baseline and an iteration-start snapshot of a column's value. Its
  behaviour is taken from the assertions of
  `mysite/scisheets/core/helpers/test_column_variable.py`. Its current value
  is the namespace binding of the column's name, because those tests observe
  changes to the namespace before the column is written.

Files:
- `values.dfy` (module `Values`): cells, columns, failures and the data-class
  coercion.
- `tables.dfy` (module `Tables`): the table the API works on. It is an
  outside collaborator, kept to an ordered sequence of uniquely named columns
  and the namespace map.
- `api_spec.dfy` (module `ApiSpec`): the loops of the API written as folds, and
  what is proved about them:
  - reconciliation (`Sync`);
  - binding (`Bind`);
  - export (`ExportFrame`);
  - import (`Import`);
  - building a table (`Build`).
- `api.dfy` (module `ExecutionApi`): the `Api` class. Each method's loop is
  proved to compute its fold.
- `column_variable.dfy` (module `ColumnVariables`): the `ColumnVariable` class
  and the scenarios its tests run.

Raised errors (`ValueError`, `KeyError`) become `Err`/`Fail` values carrying
a `Failure`.

## Model

| member | source | states |
|---|---|---|
| ExecutionApi.Api.constructor | mysite/scisheets/core/api.py:238-243 | a new API holds the given table, an empty exclusion list and a zero counter |
| ExecutionApi.Api.ExcludeColumnUpdate | mysite/scisheets/core/api.py:115-119 | the names are appended to the exclusion list; earlier entries are kept and nothing is removed or deduplicated |
| ExecutionApi.Api.Locate | mysite/scisheets/core/api.py:129-134 | an int id resolves to the column at that 1-based position, a name to the first column carrying it, anything else to nothing; what it returns is the designated column, and None means no column is designated |
| ExecutionApi.Api.GetColumn | mysite/scisheets/core/api.py:121-138 | it raises (with the id's error) exactly when validating and nothing is designated; it returns None exactly when not validating and nothing is designated; otherwise it returns the designated column |
| ExecutionApi.Api.GetColumnNames | mysite/scisheets/core/api.py:140-144 | the names of the columns in table order; a name is listed iff the table reports it present |
| ExecutionApi.Api.GetColumnValues | mysite/scisheets/core/api.py:146-153 | the named column's cells as its data class coerces them (for the first column carrying the name); it fails iff the name is absent (unknown column) or the data class refuses the cells (coercion error) |
| ExecutionApi.Api.CoerceValues | mysite/scisheets/core/api.py:105-113 | the values as the named column's data class coerces them (for the first column carrying the name); it fails iff the name is absent or the data class refuses them |
| Values.Coerce | mysite/scisheets/core/api.py:76-84 | accepted values come back unchanged; refusal happens iff the column is not `asis` and its numeric data class meets a non-numeric value |
| ExecutionApi.Api.SetDependencyCounter | mysite/scisheets/core/api.py:203-204 | the counter becomes 0 and nothing else changes |
| ExecutionApi.Api.ResolveNames | mysite/scisheets/core/api.py:170-175 | it succeeds iff every name is present, and then gives for each name the position of a column carrying it; otherwise it names the first absent name |
| ExecutionApi.Api.SetColumnVisibility | mysite/scisheets/core/api.py:161-179 | it fails iff some target name is absent, and then reports the first absent target and no column changes; otherwise exactly the columns whose names are targets (all columns by default) get the requested visibility |
| ExecutionApi.Api.SetColumnValues | mysite/scisheets/core/api.py:182-201 | an excluded or absent name leaves the table unchanged; otherwise only that column's cells are replaced by the values; the namespace never changes |
| ExecutionApi.Api.TableToDataframe | mysite/scisheets/core/api.py:206-223 | the result is the `ExportFrame` fold over the requested names (all by default) |
| ApiSpec.ExportOkIffAllKnown | mysite/scisheets/core/api.py:217-221 | the export succeeds iff every requested name has a column |
| ApiSpec.ExportFailsOnUnknownName | mysite/scisheets/core/api.py:217-221 | a failed export reports an unknown-column error naming the first requested name that has no column, every earlier name having one |
| ApiSpec.ExportKeys | mysite/scisheets/core/api.py:217-222 | a successful export holds data under exactly the requested names |
| ApiSpec.ExportData | mysite/scisheets/core/api.py:217-222 | under each name, a successful export holds the cells of the column carrying it |
| ApiSpec.ExportLabels | mysite/scisheets/core/api.py:216-222 | the labels of a successful export are exactly the keys of its data, without repeats |
| ApiSpec.ExportLabelsInOrder | mysite/scisheets/core/api.py:216-222 | when the requested names have no repeats, they are the labels of a successful export, in order |
| ApiSpec.ExportAll | mysite/scisheets/core/api.py:214-223 | exporting every column of a table with distinct names succeeds, with the column names as labels in order and each column's cells under its name |
| ExecutionApi.Api.AddColumnsToTableFromDataframe | mysite/scisheets/core/api.py:47-74 | an unknown anchor column fails with no change; otherwise the columns are the `Import` fold from the anchor position, and the result is the names, or the error of the first label missing from the dataframe |
| ApiSpec.ImportPlacesNewColumnsAtAnchor | mysite/scisheets/core/api.py:61-72 | new, acceptable names present in the dataframe are inserted as one block at the anchor position, in the order given, and the index moves past them |
| ApiSpec.ImportRefillsExisting | mysite/scisheets/core/api.py:66-73 | importing any names that columns carry and the dataframe holds, in any order and any number, replaces exactly those columns' cells with the dataframe's values, inserts nothing and leaves the index where it was |
| ApiSpec.ImportRefillsAndPlaces | mysite/scisheets/core/api.py:61-73 | importing distinct names, each either carried by a column or new and acceptable: the columns carrying requested names take the dataframe's values, the new names are inserted as one block at the anchor in the order requested, and the index moves past them |
| ApiSpec.ImportFailsIffMissing | mysite/scisheets/core/api.py:66-73 | importing fails exactly when a requested label is missing from the dataframe (pandas' KeyError at `dataframe[name]`), and the error names the first missing label |
| ApiSpec.ExportImportRoundTrip | mysite/scisheets/core/api.py:47-74 | exporting a table and importing the dataframe into a table that carries every exported name, in any order, gives each target column with an exported name that column's cells; other target columns and the index stay as they were, and nothing is inserted |
| ExecutionApi.Api.DataframeToTable | mysite/scisheets/core/api.py:86-103 | the new table's columns are the `Build` fold over the names (all labels by default); a label missing from the dataframe is an error |
| ApiSpec.BuildAppendsEach | mysite/scisheets/core/api.py:99-102 | distinct, acceptable labels present in the dataframe each become one new column, in order, holding the values under the label |
| ApiSpec.BuildFailsIffMissing | mysite/scisheets/core/api.py:99-102 | building fails exactly when a requested label is missing from the dataframe (pandas' KeyError at `dataframe[name]`), and the error names the first missing label |
| ApiSpec.ExportBuildRoundTrip | mysite/scisheets/core/api.py:86-103 | a dataframe exported from a table with acceptable names rebuilds into columns with the same names and cells, in the same order |
| ExecutionApi.Api.CreateColumn | mysite/scisheets/core/api.py:245-263 | the counter goes up by exactly 1; an existing name returns that column and changes no column; a fresh acceptable name inserts one new column at the requested position; a name the table refuses is an error with no change |
| ExecutionApi.Api.DeleteColumn | mysite/scisheets/core/api.py:296-305 | an id designating nothing leaves the table and the counter unchanged; otherwise exactly the designated column is removed and the counter goes up by 1 |
| ExecutionApi.Api.AssignColumnVariable | mysite/scisheets/core/api.py:265-271 | the name is bound to the column's coerced values; a lookup or coercion failure leaves the namespace unchanged |
| ExecutionApi.Api.AssignColumnVariables | mysite/scisheets/core/api.py:273-282 | the namespace is the `Bind` fold over the columns, and the outcome is that fold's error |
| ApiSpec.BindErrorIff | mysite/scisheets/core/api.py:279-282 | binding fails iff an unskipped column's cells are refused by its data class |
| ApiSpec.BindStopsAtFirstFailure | mysite/scisheets/core/api.py:279-282 | a failed binding stopped at the first unskipped column whose cells its data class refused: the error is that column's coercion error and the bindings made before it stay |
| ApiSpec.BindInvariant | mysite/scisheets/core/api.py:279-282 | after binding without a failure, each unskipped column's name is bound to its cells as the column's data class coerces them, other bindings are kept and nothing else is bound |
| ExecutionApi.Api.UpdateTableCellsAndColumnVariables | mysite/scisheets/core/api.py:307-321 | columns, namespace and outcome are the `Sync` fold over the columns, with the exclusion list as the names `setColumnValues` leaves alone |
| ApiSpec.SyncKeepsNames | mysite/scisheets/core/api.py:315-321 | reconciliation keeps the columns, their order and their names |
| ApiSpec.SyncKeepsBindings | mysite/scisheets/core/api.py:318-321 | no binding that existed before reconciliation is changed or removed |
| ApiSpec.SyncBindsOnlyVisited | mysite/scisheets/core/api.py:315-321 | every binding added names a visited, unskipped column |
| ApiSpec.SyncLeavesLaterColumns | mysite/scisheets/core/api.py:315-319 | columns not yet visited are untouched |
| ApiSpec.SyncFailsOnlyOnSeed | mysite/scisheets/core/api.py:317-321 | reconciliation fails iff some unskipped, unbound column's cells are refused by its data class |
| ApiSpec.SyncWritesBack | mysite/scisheets/core/api.py:317-319 | after success, a bound, unskipped, unlocked column holds its name's binding; skipped, locked and unbound columns are as they were |
| ApiSpec.SyncSeeds | mysite/scisheets/core/api.py:317-321 | after success, every unskipped column's name is bound, and a previously unbound name is bound to its column's cells as its data class coerces them |
| ApiSpec.SyncStopsAtFirstFailure | mysite/scisheets/core/api.py:320-321 | a failure happens at the first column that had to be seeded and was refused; the state is the one reached just before it |
| ColumnVariables.ColumnVariable.constructor | mysite/scisheets/core/helpers/test_column_variable.py:32-34 | the baseline is the column's cells and no iteration snapshot exists yet; when the name is bound to the column's cells, the new variable reports no change from its baseline (test line 58) |
| ColumnVariables.ColumnVariable.ColumnValue | mysite/scisheets/core/helpers/test_column_variable.py:36-38 | the cells of the wrapped column |
| ColumnVariables.ColumnVariable.NamespaceValue | mysite/scisheets/core/helpers/test_column_variable.py:40-44 | the namespace binding of the column's name, absent iff the name is unbound |
| ColumnVariables.ColumnVariable.SetColumnValue | mysite/scisheets/core/helpers/test_column_variable.py:46-53 | the column's cells become the namespace binding of its name; its other fields, every other column and every binding stay as they were |
| ColumnVariables.ColumnVariable.IsChangedFromBaselineValue | mysite/scisheets/core/helpers/test_column_variable.py:55-66 | unchanged iff the name's binding equals the baseline |
| ColumnVariables.ColumnVariable.IsChangedFromIterationStartValue | mysite/scisheets/core/helpers/test_column_variable.py:68-78 | unchanged iff a snapshot was taken and equals the name's binding |
| ColumnVariables.ColumnVariable.SetIterationStartValue | mysite/scisheets/core/helpers/test_column_variable.py:61-63 | the snapshot becomes the current binding, so the variable reads as unchanged from it; the baseline and the baseline predicate are not affected |
| ColumnVariables.BaselineScenario | mysite/scisheets/core/helpers/test_column_variable.py:55-66 | unchanged, then changed after a new binding (even after a snapshot), then unchanged once the column takes the value and the baseline is moved to it |
| ColumnVariables.IterationScenario | mysite/scisheets/core/helpers/test_column_variable.py:68-78 | unchanged after a snapshot, changed after a new binding, unchanged after a second snapshot |
| ColumnVariables.ColumnValueScenario | mysite/scisheets/core/helpers/test_column_variable.py:46-53 | after a new binding and `SetColumnValue`, the column holds the new value |

## Left out

- File I/O and persistence are not modelled: `getTableFromFile`, `updateTableFile`, `APIPlugin` and its `initialize`, pickle and the `api_util` helpers. They depend on the file system and on code that is not part of this model.
- `compareToColumnValues` is not modelled. It only delegates to `api_util.compareIterables`, which is not part of this model.
- `getTable` is represented by the `table` field and has no member of its own. `getDependencyCounter` is a plain accessor (`ExecutionApi.Api.GetDependencyCounter`) and has no row.
- `Values.Coerce`: the data classes behind `getDataClass().cons` are not part of this model. A stand-in replaces them: "any value" accepts everything, and "numbers" refuses any text cell. Accepted values are returned unchanged, so real conversions are not captured.
- `Tables.Table` is not modelled beyond what the API relies on. It is a stand-in for the table class, which is not part of this model:
  - `addColumn` refuses a name that is not identifier-shaped or that a column already carries;
  - a missing or past-the-end index appends the column;
  - formula evaluation, dependency ordering, row counts and the padding of short columns are absent.
- The table's name ('row') column is left out. Position 1 of `getColumn` and `deleteColumn` is the first column of the modelled sequence, and `tableToDataframe`'s default (the data columns) is every modelled column.
- Columns are identified by name, which a valid table keeps unique. Object identity of column objects is not modelled.
- ExecutionApi.Api.AddColumnsToTableFromDataframe: `indexFromColumn` is not part of this model. New columns are inserted at the anchor column's own position, ahead of it, whereas the docstring says "place after". An anchor name with no column is an error with no change; `addColumnsToTableFromDataframe` would pass `None` on to `indexFromColumn`.
- ExecutionApi.Api.AddColumnsToTableFromDataframe, ExecutionApi.Api.DataframeToTable and ExecutionApi.Api.TableToDataframe: pandas details such as index alignment, dtypes and length checks are not modelled. A dataframe is an ordered label list and a map from label to values, and a missing label is a `MissingFrameColumn` error in place of pandas' `KeyError`. In particular, pandas raises `ValueError` when `tableToDataframe` assigns a column whose cell count differs from the frame's index. The modelled table may hold columns of different lengths, and `ExportFrame` never fails on that.
- ExecutionApi.Api.SetColumnValues: the list/`tolist` conversions collapse to a sequence. The raise after `columnFromName` cannot be reached once `isColumnPresent` holds, so it has no counterpart.
- ExecutionApi.Api.CreateColumn: with no index, the docstrings of `_createColumn` and `createColumn` (api.py:247-248, 286-287) promise a column just to the right of the current column. The code passes `index=None` on to `Table.addColumn`, which is not part of this model, and the `_column_idx` field (api.py:38) is never set. This model appends the new column at the end, as `Tables.InsertPosition` defines; it does not model a current column.
- ExecutionApi.Api.CreateColumn models `_createColumn`. The public `createColumn` (lines 284-294) forwards its arguments unchanged, so it has no member of its own.
- ExecutionApi.Api.GetColumn: the `pdb.set_trace()` breakpoint before the raise is not modelled, only the error that follows it.
- ColumnVariables.ColumnVariable.SetColumnValue: the class source is not part of this model. When the name is unbound, this model reports `false` and changes nothing; the original would presumably fail on the missing key.
- ColumnVariables.ColumnVariable.IsChangedFromBaselineValue and ColumnVariables.ColumnVariable.IsChangedFromIterationStartValue return no answer while the name is unbound; the tests never observe that case.
- The convergence driver (bind, run formulas, reconcile, compare with the iteration-start snapshots, repeat up to a cap) is not modelled. It is not in the code this model follows, and its cap is unknown.
- Concurrency is not modelled. The API runs single-threaded.
