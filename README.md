# Ride-booking bronze-to-silver transformation, in Dafny

This project models the table transformations of a ride-booking ETL pipeline.
It covers three parts:

- The bronze-to-silver step (`preprocess/bronze_to_silver.py`):
  - column names are lower-cased and spaces become underscores;
  - the table is cast to its types;
  - six calendar columns are derived from `datetime` (`hour`, `day`, `month`, `weekday`, `is_weekend`, `time_of_day`);
  - three `_flag` columns record whether the cancellation counts are present;
  - four `_missing_flag` columns record whether ratings, booking value and payment method are missing.
- The copy of the same five steps in `features.py`. Every member there is proved to give exactly the result of its bronze-to-silver twin.
- The time-range read of the raw file (`dataset.py`, `read_data_from_file`):
  - a helper `datetime` column is built from `Date` + `" "` + `Time`;
  - the rows are filtered by the optional inclusive start and end bounds;
  - the helper column is dropped again.

A pandas data frame is a `Frames.Frame`. It holds a list of column names, which may repeat as in pandas, and rows of cells aligned with those names. A cell is an `Option<Value>`, and `None` stands for NaN, NaT and None.

The pandas operations the code uses are each modelled once, in module `Frames`:

- `df[name]` raises KeyError when the name is absent. It gives one Series when the name occurs once. When the name is duplicated, it gives the sub-frame of all columns of that name, in order.
- `df[name] = values` with a Series overwrites every column of that name, or appends one. Row `i` of each such column gets value `i`. pandas has one exception: when the name occurs as many times as the table has rows, two or more, it spreads the Series across those columns. The `m`-th column of the name then holds value `m` in every row (`Frames.Spreads`, `Frames.SeriesRow`).
- `df[name] = sub_frame` writes the sub-frame column by column into the columns of that name. It raises ValueError when the numbers of columns differ. For a new name, only a one-column sub-frame is accepted.
- `apply` of the `time_of_day` lambda on a sub-frame hands the lambda whole columns. The lambda's `if` then raises ValueError. On a table without rows, pandas swallows that error and returns a copy.
- `df.drop(columns=...)`.
- Boolean-mask row selection.
- `.notnull()`, `.isnull()` and `.isin`, cell by cell, on a Series or a sub-frame.
- `.dt.<field>`.
- `.str.lower()` and `.str.replace`.

The Python functions that loop over their columns (`cancelled_to_flag`, `missing_to_flag`) and the functions that rebind a frame step by step (`transform_to_silver`, `transform`, `read_data_from_file`) are methods. Each is proved equal to a specification function, and the specification functions carry the lemmas.

Parts of the system the model does not contain are parameters:

- The type cast `cast_to_dtypes` is a function `cast` that is only required to keep the table rectangular and its row count (`BronzeToSilver.ShapePreserving`).
- The calendar behind `.dt` is `cal: int -> DateParts`. A timestamp is an integer `Stamp(t)`.
- The `strptime` format used by `pd.to_datetime(..., format=...)` is `parse: string -> Option<int>`.

The code contains no geocoding, weather or as-of join stage. The silver-to-gold step of the repository passes its table through unchanged, so this model follows the code and contains none of them either.

## Model

| member | source | states |
|---|---|---|
| Frames.GetColumn | data-analysis/data_analysis/preprocess/bronze_to_silver.py:117 | the single-column read used before `.dt`: it succeeds exactly when one column has that name, gives KeyError when none does, and yields that column cell by cell |
| Frames.Select | data-analysis/data_analysis/preprocess/bronze_to_silver.py:121 | `df[name]` fails, with KeyError, exactly when the name is absent; it gives a Series exactly when the name occurs once, and otherwise a sub-frame with one column per occurrence |
| Frames.SelectCells | data-analysis/data_analysis/preprocess/bronze_to_silver.py:149 | column `m` of the sub-frame read for a duplicated name holds the cells of the `m`-th column of that name |
| Frames.Assign | data-analysis/data_analysis/preprocess/bronze_to_silver.py:121 | assigning a Series always succeeds, and spreads it when the name occurs as many times as there are rows, two or more; a sub-frame is accepted exactly when it has as many columns as the name occurs, or one column for a new name, and otherwise raises a shape error; on success the table stays rectangular and the name is appended only if new |
| Frames.SetColumnsCells | data-analysis/data_analysis/preprocess/bronze_to_silver.py:149 | a sub-frame is written by position: the `m`-th column of that name receives sub-frame column `m`, and every cell under another name is unchanged |
| Frames.AssignUniform | data-analysis/data_analysis/preprocess/bronze_to_silver.py:121 | when the name does not spread, writing a sub-frame whose columns all equal one column is the same as assigning that column as a Series |
| Frames.AssignSpread | data-analysis/data_analysis/preprocess/bronze_to_silver.py:121 | when the name spreads, writing a sub-frame whose rows all equal one sequence is the same as assigning that sequence as a Series, which is how a spread `weekday` gives a spread `is_weekend` |
| Frames.SetColumn | data-analysis/data_analysis/preprocess/bronze_to_silver.py:117-121 | assignment keeps the table rectangular and the row count; the column list gains the name only if it was absent |
| Frames.SpreadTwoColumns | data-analysis/data_analysis/preprocess/bronze_to_silver.py:117-121 | on a two-row table with two columns called `a`, assigning the Series `[x, y]` to `a` fills the first column with `x` and the second with `y` |
| Frames.SetColumnAt | data-analysis/data_analysis/preprocess/bronze_to_silver.py:117-121 | after `df[name] = values`, the first column of `name` reads `values` row by row, or `values[0]` in every row when the name spreads; whether any name occurs at most once, and whether it spreads, is unchanged; every other name reads as before |
| Frames.SetColumnCells | data-analysis/data_analysis/preprocess/bronze_to_silver.py:149 | the `m`-th column of the assigned name holds value `i` in row `i`, or value `m` in every row when the name spreads; every other cell is unchanged |
| Frames.AddNamesMembers | data-analysis/data_analysis/preprocess/bronze_to_silver.py:147-149 | after a series of assignments, the column names are exactly the old names plus the assigned ones, and every appended column bears an assigned name |
| Frames.AddNamesFresh | data-analysis/data_analysis/preprocess/bronze_to_silver.py:147-149 | assigning distinct new names appends them, in order, at the end of the column list |
| Frames.DropColumn | data-analysis/data-analysis/dataset.py:38 | `drop(columns=[name])` keeps the row count and the table rectangular; afterwards `name` is absent and every other name is present exactly when it was before; a frame without `name` is returned unchanged; `DropColumnKeeps` states the cells |
| Frames.SelectRows | data-analysis/data-analysis/dataset.py:34-36 | boolean indexing keeps the column list, and row `t` of the result is the row at the `t`-th kept position |
| Frames.DropColumnKeeps | data-analysis/data-analysis/dataset.py:38 | dropping a name removes every column of that name and keeps the row count; every other name stays, duplicated exactly when it was before, and each of its rows reads the cell it had |
| Frames.Lower | data-analysis/data_analysis/preprocess/bronze_to_silver.py:74 | the result has no upper-case ASCII letter; each upper-case letter becomes the lower-case letter at the same place in the alphabet; every other character stays; the length is kept |
| Frames.Replace | data-analysis/data_analysis/preprocess/bronze_to_silver.py:74 | every occurrence of the pattern character becomes the replacement, so none is left when the two differ; every other character stays; the length is kept |
| BronzeToSilver.NormalizeName | data-analysis/data_analysis/preprocess/bronze_to_silver.py:74 | the new name has the same length, no space and no upper-case ASCII letter; each character is lowered, and a space becomes `_` |
| BronzeToSilver.NormalizeNameIdempotent | data-analysis/data_analysis/preprocess/bronze_to_silver.py:74 | normalising a normalised name leaves it unchanged |
| BronzeToSilver.RenameColumns | data-analysis/data_analysis/preprocess/bronze_to_silver.py:70-75 | the copy has the same rows and number of columns; column `j` is the normalised name of column `j`; no name contains a space |
| BronzeToSilver.RenameColumnsIdempotent | data-analysis/data_analysis/preprocess/bronze_to_silver.py:70-75 | renaming twice is the same as renaming once |
| BronzeToSilver.SegmentTimeOfDay | data-analysis/data_analysis/preprocess/bronze_to_silver.py:123-131 | each bucket holds exactly its hour range: morning 6-11, afternoon 12-16, evening 17-22, night for every other hour |
| BronzeToSilver.TimeOfDay | data-analysis/data_analysis/preprocess/bronze_to_silver.py:133 | the `time_of_day` Series has one cell per hour: missing where the hour is missing, and otherwise the bucket of that hour |
| BronzeToSilver.ApplyTimeOfDay | data-analysis/data_analysis/preprocess/bronze_to_silver.py:133 | applied to a Series, every hour is put in its bucket; applied to a sub-frame, it raises ValueError exactly when the table has rows, and otherwise returns the sub-frame unchanged |
| BronzeToSilver.WeekendCell | data-analysis/data_analysis/preprocess/bronze_to_silver.py:121 | `is_weekend` is true exactly when the weekday is 5 or 6 |
| BronzeToSilver.WeekendStep | data-analysis/data_analysis/preprocess/bronze_to_silver.py:120-121 | once every `weekday` column holds the weekday field, the `is_weekend` assignment succeeds when `weekday` occurs once or `is_weekend` occurs as often, and the result is that of assigning the flags of the weekday field as a Series: in every `is_weekend` column when the names do not spread, and spread across them when they do |
| BronzeToSilver.WeekendFails | data-analysis/data_analysis/preprocess/bronze_to_silver.py:121 | a duplicated `weekday` with a different number of `is_weekend` columns makes the assignment raise |
| BronzeToSilver.HourStep | data-analysis/data_analysis/preprocess/bronze_to_silver.py:133 | the `time_of_day` assignment succeeds when `hour` occurs once, or when the table has no rows and `time_of_day` occurs as often as `hour`; the result is that of assigning the bucket of each hour as a Series, spread when `time_of_day` spreads |
| BronzeToSilver.HourFails | data-analysis/data_analysis/preprocess/bronze_to_silver.py:133 | a duplicated `hour` makes the `apply` raise on a table with rows, and the assignment raise when `time_of_day` does not occur as often |
| BronzeToSilver.ExtractTemporalFeatures | data-analysis/data_analysis/preprocess/bronze_to_silver.py:115-135 | on success the result is rectangular with the input's row count; the success condition, column list, kept cells and row values are `TemporalFeatures` |
| BronzeToSilver.TemporalUnfold | data-analysis/data_analysis/preprocess/bronze_to_silver.py:115-135 | whenever all the reads and assignments can succeed, the result is the copy with the six fields assigned as Series, column by column as pandas writes them, spreads included |
| BronzeToSilver.TemporalSucceeds | data-analysis/data_analysis/preprocess/bronze_to_silver.py:115-135 | the step succeeds exactly when `datetime` occurs once with datetime type; `weekday` occurs once or `is_weekend` as often; and `hour` occurs once, or the table has no rows and `time_of_day` occurs as often |
| BronzeToSilver.TemporalColumnList | data-analysis/data_analysis/preprocess/bronze_to_silver.py:117-133 | on success the six temporal names are all columns, added in assignment order after the existing ones |
| BronzeToSilver.TemporalKeeps | data-analysis/data_analysis/preprocess/bronze_to_silver.py:115-135 | every cell outside the six temporal columns is left as it was |
| BronzeToSilver.TemporalRow | data-analysis/data_analysis/preprocess/bronze_to_silver.py:117-133 | in row `i` of the first column of each temporal name: `hour`, `day`, `month` and `weekday` are the calendar fields of the row's own timestamp (of row 0 when the name spreads); `is_weekend` is whether that weekday is 5 or 6; `time_of_day` is missing exactly when that timestamp is, and otherwise is the bucket of its hour |
| BronzeToSilver.TemporalRows | data-analysis/data_analysis/preprocess/bronze_to_silver.py:117-133 | the per-row statement of `TemporalRow`, for every row at once, with the result rectangular |
| BronzeToSilver.TemporalFeatures | data-analysis/data_analysis/preprocess/bronze_to_silver.py:115-135 | the whole contract: the exact success condition, the column list it leaves, the cells it keeps, and the row-by-row values |
| BronzeToSilver.FlagNames | data-analysis/data_analysis/preprocess/bronze_to_silver.py:148 | the `k`-th flag name is the `k`-th source column with the suffix appended; distinct sources give distinct flag names; none is a source when no source is another source plus the suffix |
| BronzeToSilver.Flagged | data-analysis/data_analysis/preprocess/bronze_to_silver.py:147-149 | the flag loop over `cols`, one pass per column in order, stopping at the first pass that raises; on success the result is rectangular with the input's row count; `FlaggedSpec` states the rest |
| BronzeToSilver.FlaggedPrefix | data-analysis/data_analysis/preprocess/bronze_to_silver.py:147-149 | once one pass of the loop raises, the loop's outcome is that exception |
| BronzeToSilver.FlagOnePairs | data-analysis/data_analysis/preprocess/bronze_to_silver.py:148-149 | one pass raises exactly when its source is missing, or duplicated without its flag name occurring as often; otherwise it assigns the flag name and keeps every other cell; a source that occurs once marks every flag column row by row, or the `m`-th flag column with the mark of row `m` when the flag name spreads; the `m`-th column of a duplicated source marks the `m`-th flag column |
| BronzeToSilver.FlagStep | data-analysis/data_analysis/preprocess/bronze_to_silver.py:147-149 | one more pass keeps the loop invariant, and it fails exactly when its source is missing, or duplicated without as many flag columns |
| BronzeToSilver.FlaggedSpec | data-analysis/data_analysis/preprocess/bronze_to_silver.py:147-149 | the loop over sources that are not flag names succeeds exactly when every source is present and, where duplicated, its flag name occurs as often; it then adds the flags in order, keeps every other cell, and sets the first column of each flag from its source cell (`FlagRow`: that of the same row, or of row 0 when a once-occurring source's flag name spreads) |
| BronzeToSilver.FlaggedColumns | data-analysis/data_analysis/preprocess/bronze_to_silver.py:147-149 | the loop's exact success condition, its column list (new flags appended at the end), the cells it keeps, and the first column of each flag, cell by cell, as in `FlaggedSpec` |
| BronzeToSilver.PresenceFlags | data-analysis/data_analysis/preprocess/bronze_to_silver.py:147-149 | the loop with `notnull`: each flag is true exactly where its source cell (by `FlagRow`) is present |
| BronzeToSilver.AbsenceFlags | data-analysis/data_analysis/preprocess/bronze_to_silver.py:164-166 | the loop with `isnull`: each flag is true exactly where its source cell (by `FlagRow`) is missing |
| BronzeToSilver.CancelledNames | data-analysis/data_analysis/preprocess/bronze_to_silver.py:141-148 | the three `_flag` names are the source names with `_flag` appended; they are distinct, and none is one of the three source columns |
| BronzeToSilver.MissingNames | data-analysis/data_analysis/preprocess/bronze_to_silver.py:157-165 | the four `_missing_flag` names are the source names with `_missing_flag` appended; they are distinct, and none is one of the four source columns |
| BronzeToSilver.CancelledFlags | data-analysis/data_analysis/preprocess/bronze_to_silver.py:138-151 | `cancelled_to_flag` succeeds exactly when each of its three columns is present and, where duplicated, its `_flag` name occurs as often; it then sets the three flags, true where the source value (by `FlagRow`) is present, and changes nothing else |
| BronzeToSilver.MissingFlags | data-analysis/data_analysis/preprocess/bronze_to_silver.py:154-168 | `missing_to_flag` succeeds exactly when each of its four columns is present and, where duplicated, its `_missing_flag` name occurs as often; it then sets the four flags, true where the source value (by `FlagRow`) is missing, and changes nothing else |
| BronzeToSilver.CancelledToFlag | data-analysis/data_analysis/preprocess/bronze_to_silver.py:138-151 | the loop on a copy gives the flagged frame, or the exception of the first pass that raises |
| BronzeToSilver.MissingToFlag | data-analysis/data_analysis/preprocess/bronze_to_silver.py:154-168 | the loop on a copy gives the flagged frame, or the exception of the first pass that raises |
| BronzeToSilver.Silver | data-analysis/data_analysis/preprocess/bronze_to_silver.py:58-67 | the rename, the cast, the temporal step and the two flag loops in order, the first that raises deciding the outcome; on success the result is rectangular with the bronze row count; `SilverShape` states the columns and cells |
| BronzeToSilver.SilverShape | data-analysis/data_analysis/preprocess/bronze_to_silver.py:58-67 | on success the row count is kept; the typed table's columns come first, then the temporal and flag columns; every other cell is unchanged |
| BronzeToSilver.TransformToSilver | data-analysis/data_analysis/preprocess/bronze_to_silver.py:58-67 | the five steps in order give the silver table, and the first step that raises decides the outcome |
| Features.RenameColumns | data-analysis/data_analysis/features.py:44-49 | equal to the bronze-to-silver `rename_columns` on every frame |
| Features.SegmentTimeOfDay | data-analysis/data_analysis/features.py:97-105 | equal to the bronze-to-silver `segment_time_of_day` for every hour |
| Features.TimeOfDay | data-analysis/data_analysis/features.py:107 | equal to the bronze-to-silver `time_of_day` column for every hour column |
| Features.ApplyTimeOfDay | data-analysis/data_analysis/features.py:107 | equal to the bronze-to-silver `apply` for every Series or sub-frame, failures included |
| Features.ExtractTemporalFeatures | data-analysis/data_analysis/features.py:89-109 | equal to the bronze-to-silver `extract_temporal_features`, failures included |
| Features.CancelledToFlag | data-analysis/data_analysis/features.py:112-125 | its loop gives exactly the bronze-to-silver `cancelled_to_flag` result |
| Features.MissingToFlag | data-analysis/data_analysis/features.py:128-142 | its loop gives exactly the bronze-to-silver `missing_to_flag` result |
| Features.Transform | data-analysis/data_analysis/features.py:32-41 | `transform` gives exactly what `transform_to_silver` gives, for every input, cast and calendar |
| Dataset.ParseAll | data-analysis/data-analysis/dataset.py:31 | `to_datetime` with a format succeeds exactly when every joined string parses, and then gives each row the timestamp of its own joined string, NaT where a part is missing |
| Dataset.DatetimeColumn | data-analysis/data-analysis/dataset.py:31 | on success the helper column has one timestamp or NaT per file row; the exact outcome is `DatetimeColumnSpec` |
| Dataset.DatetimeColumnSpec | data-analysis/data-analysis/dataset.py:31 | building the helper column fails exactly when `Date` or `Time` is absent or duplicated, `Date` holds a non-string, `Time` holds a non-string on a row whose `Date` is present, or a joined string is one the format rejects; otherwise row `i` gets the timestamp of its own date and time, NaT when either is missing |
| Dataset.MaskedTime | data-analysis/data-analysis/dataset.py:31 | a number in `Time` beside a missing `Date` does not raise: pandas' object `+` masks that row, and both rows of the example get NaT |
| Dataset.Kept | data-analysis/data-analysis/dataset.py:33-36 | the kept positions are increasing, in range, and lie in the window |
| Dataset.KeptExactly | data-analysis/data-analysis/dataset.py:33-36 | a row is kept exactly when its timestamp is not NaT and lies within every given bound, inclusively |
| Dataset.KeptAll | data-analysis/data-analysis/dataset.py:33-36 | with no bound given, every position is kept, in order |
| Dataset.KeptNone | data-analysis/data-analysis/dataset.py:33-36 | a start after the end keeps no row |
| Dataset.KeptCompose | data-analysis/data-analysis/dataset.py:33-36 | filtering by the start and then, on the rows that remain, by the end keeps the same rows as one filter by both bounds |
| Dataset.SelectTwice | data-analysis/data-analysis/dataset.py:33-36 | filtering an already filtered frame selects the composed positions of the original rows |
| Dataset.SelectAll | data-analysis/data-analysis/dataset.py:33-36 | a filter that keeps every position leaves the frame unchanged |
| Dataset.DropAfterSet | data-analysis/data-analysis/dataset.py:31-38 | assigning a column and then dropping it gives the frame minus that column |
| Dataset.FilterByBounds | data-analysis/data-analysis/dataset.py:33-38 | the two conditional filters and the in-place drop give the rows within both bounds, in order, without `datetime` |
| Dataset.WithStamps | data-analysis/data-analysis/dataset.py:31 | adding the helper column keeps the table rectangular and its row count; on a file with distinct names, `datetime` then occurs once (`HelperColumn` reads it back) |
| Dataset.InRange | data-analysis/data-analysis/dataset.py:14-42 | the specification of the read: a rectangular table with one row per kept position; `InRangeRows` and `InRangeCells` state its rows and cells |
| Dataset.ReadDataFromFile | data-analysis/data-analysis/dataset.py:14-42 | the read fails exactly when building the timestamps fails, with the same error; otherwise it gives exactly the file rows within the bounds, without the helper column |
| Dataset.NoBoundsKeepsAll | data-analysis/data-analysis/dataset.py:33-38 | with no bound the read keeps every row, and returns the file itself when it has no `datetime` column |
| Dataset.InRangeRows | data-analysis/data-analysis/dataset.py:33-38 | the result keeps the file's columns; row `t` is the `t`-th file row in the window; a file row is in the result exactly when its timestamp lies within the bounds |
| Dataset.InRangeCells | data-analysis/data-analysis/dataset.py:31-38 | also for a file with its own `datetime` column: the result has no `datetime` column and keeps every other name; each other column holds the cells of the file rows in the window, in order, duplicated exactly when it was in the file |

## Left out

- `cast_to_dtypes` (bronze_to_silver.py:78-112, features.py:52-86) is a parameter. The model requires of it only that it keeps the table rectangular and keeps its row count. Its per-column conversions (`to_datetime`, `to_numeric`, `astype`) are not modelled.
- Calendar arithmetic behind `.dt.hour`, `.dt.day`, `.dt.month` and `.dt.dayofweek` is the parameter `cal`. Timestamps are integers.
- pandas dtypes are not modelled. In pandas an `hour` column with NaT becomes float, and one without NaT stays integer. The model always stores whole-number hours as `Int`, so `segment_time_of_day` sees the same numbers either way.
- BronzeToSilver.FlaggedSpec: states the cells of the first column of each flag name, through `At`. The pairing of every flag column with its source column is stated pass by pass in `FlagOnePairs`.
- BronzeToSilver.FlaggedColumns: states the first column of each flag name only, as `FlaggedSpec` does.
- BronzeToSilver.PresenceFlags: states the first column of each flag name only, as `FlaggedSpec` does.
- BronzeToSilver.AbsenceFlags: states the first column of each flag name only, as `FlaggedSpec` does.
- BronzeToSilver.CancelledFlags: states the first column of each flag name only, as `FlaggedSpec` does.
- BronzeToSilver.MissingFlags: states the first column of each flag name only, as `FlaggedSpec` does.
- BronzeToSilver.TemporalFeatures: the row values are stated for the first column of each temporal name. `TemporalUnfold` gives every column, as the six Series assignments write them.
- BronzeToSilver.TemporalRow: reads the first column of each temporal name, as `TemporalFeatures` does.
- Row labels (the pandas index) are not modelled. A frame is its column names and its rows in order. `df[mask]` at dataset.py:34 and dataset.py:36 keeps the labels of the kept rows, and the model records only the rows. When a Series is spread over the columns of a name, `Frames.SeriesRow` takes value `m` by position. pandas looks it up by label, which is the same for the default 0..n-1 index of a frame read from CSV.
- Frames.Lower: handles ASCII letters only. Python's `str.lower` also lowers non-ASCII letters.
- BronzeToSilver.NormalizeName: lowers ASCII letters only, through `Frames.Lower`.
- Dataset.ReadDataFromFile: requires distinct column names, which is what `pd.read_csv` produces because it renames duplicated headers. The CSV parsing itself is not modelled.
- Dataset.ParseAll: an all-missing `Date` column, which pandas reads as float, is modelled as a column of missing strings. pandas would raise a TypeError on `Date + " "` at dataset.py:31 in that case, because the masked retry applies only to object columns. An all-missing `Time` needs no such line: the object `+` masks it, and every row gets NaT, as in the model.
- Dataset.DatetimeColumnSpec: does not fail for an all-missing `Date` column, for the same reason as `ParseAll`. The gap lies in `Concatenable` and `DatetimeColumn`.
- Dataset.ReadDataFromFile: succeeds on an all-missing `Date` column, where pandas raises TypeError, for the same reason as `DatetimeColumnSpec`.
- In `read_data_from_file`, Python makes any given datetime truthy, so `if start_datetime:` is modelled as "the bound is given".
- A `datetime` column already present in the file is overwritten by the helper column and then dropped. The model does this, and `InRange` reflects it.
- File, BigQuery and CSV reading and writing are not modelled. This covers `read_raw_data_from_bigquery` and the data handler's readers and uploaders.
- Logging, environment variables and the `run` entry points are not modelled.
- The validation (`validation.py`, `data_handling/validation.py`) and logging setup (`utils.py`) modules are not modelled. They check the schema or configure output and do not transform the table.
- The `silver_to_gold` step is not modelled: it returns its input unchanged. The code contains no geocoding, weather fetching or nearest-timestamp join, so there is nothing of those to model.
