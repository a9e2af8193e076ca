# microgrid_eda: cleaning and I/O checks, in Dafny

This project models the data-handling core of `microgrid_eda`, a small
pipeline for exploring microgrid measurements: consumption, solar and wind
readings with timestamps.

- `standardize` (src/microgrid_eda/clean.py) does four things. It renames
  every column to `c.lower().strip()`. It parses the `timestamp` column and
  makes it the index, sorted. It takes hourly means. It drops every hour
  that has a missing mean.
- `validate_schema` (src/microgrid_eda/io.py) checks that a table carries
  the required measurement columns and a timestamp.
- `load_raw_data` is modelled from the point where `read_csv` has returned
  a table: it moves the timestamp column into the index and validates.
- `save_processed_data` is modelled up to the write: the missing-value
  guard, then the choice of writer by format name.

Modules:

- `Wrappers`: `Option`, `Result` and `Outcome` (pass or fail with an error).
- `Text`: Python's `str.lower()`, `str.strip()` and the string order used
  by `sorted()`.
- `Series`: the time-series steps of `standardize`. It defines the row
  type, a stable sort by time and the hourly resample. The resample is
  written as pandas computes it: runs of consecutive rows over the sorted
  frame. `HourlyMeans` is an independent reference definition: one bucket
  per hour from the earliest timestamp to the latest, each holding the mean
  of every column's present values in that hour. The lemmas tie the two
  together and prove what the result is.
- `Clean`: `standardize` over a frame of cells. It includes the error cases
  and the fixture of tests/test_clean.py, worked through to its two hourly
  rows.
- `Io`: `validate_schema`, the post-read part of `load_raw_data`, the checks
  of `save_processed_data`, and the round trip of tests/test_io.py.

The model follows the code wherever a reading of the intended behaviour
differs from it:

- Required column names are matched exactly, with case, against
  `("Consumption", "Solar", "Wind")`. Lower-case labels fail, as
  `CaseSensitiveSchema` shows.
- Two columns that become the same name after `lower().strip()` raise no
  error. Both are kept (`NoCollisionError`).
- `standardize` calls `to_datetime` without `errors="coerce"`. So a
  timestamp string that does not parse is an error, not a missing value.
  Only `load_raw_data` coerces.
- The output hours are ascending but need not be evenly spaced. `dropna`
  removes whole hours and leaves gaps.
- `standardize` cannot be applied to its own output. The output has no
  `timestamp` column any more, so the result is `MissingTimestampColumn`.

## Model

| member | source | states |
|---|---|---|
| `Text.StripIsCut` | src/microgrid_eda/clean.py:4 | `strip()` leaves a contiguous slice of its argument. Everything cut off on either side is whitespace. The result neither starts nor ends with whitespace. |
| `Text.TrimStartIsSuffix` | src/microgrid_eda/clean.py:4 | Dropping leading whitespace leaves a suffix of the input. Only whitespace is removed, and the suffix does not start with whitespace. |
| `Text.TrimEndIsPrefix` | src/microgrid_eda/clean.py:4 | Dropping trailing whitespace leaves a prefix of the input. Only whitespace is removed, and the prefix does not end with whitespace. |
| `Text.NormalizeIsNormalized` | src/microgrid_eda/clean.py:4 | Every renamed column has no ASCII capital letter and no whitespace at either end. |
| `Text.NormalizeFixesNormalized` | src/microgrid_eda/clean.py:4 | A label already lower-case and stripped is left unchanged by the renaming. |
| `Text.NormalizeIdempotent` | src/microgrid_eda/clean.py:4 | Renaming twice gives the same as renaming once. |
| `Text.LessTransitive` | src/microgrid_eda/io.py:33 | Python's string order is transitive. |
| `Text.LessTotal` | src/microgrid_eda/io.py:33 | Python's string order is total. |
| `Text.SortedDistinct` | src/microgrid_eda/io.py:31-33 | `sorted(set(s))` is strictly ascending and holds exactly the strings of `s`. |
| `Text.StrictlySortedUnique` | src/microgrid_eda/io.py:33 | Two strictly sorted lists with the same elements are equal. So the message depends only on the set of missing names. |
| `Series.HourOf` | src/microgrid_eda/clean.py:10 | The hourly bucket of a timestamp starts on the hour grid, at or before the timestamp, within one hour of it. |
| `Series.SortByTime` | src/microgrid_eda/clean.py:6 | `sort_values("timestamp")` gives rows in ascending time that are a permutation of the input rows. |
| `Series.Resample` | src/microgrid_eda/clean.py:10 | An empty frame gives no buckets. Otherwise there is exactly one bucket per hour, from the hour of the first row to the hour of the last. `ResampleAgrees` states that each bucket holds the reference means. |
| `Series.ResampleAgrees` | src/microgrid_eda/clean.py:10 | On time-sorted rows, `resample("1h").mean()` over runs of rows equals the reference buckets. There is one bucket per hour from the first hour to the last, each the mean of present values among that hour's rows. |
| `Series.HourlyOfSorted` | src/microgrid_eda/clean.py:6-13 | Sorting, then resampling, then dropping incomplete hours gives the reference result of the unsorted rows. |
| `Series.MeansPermutation` | src/microgrid_eda/clean.py:10 | A bucket's means do not depend on the order of its rows. |
| `Series.HourlyMeansShape` | src/microgrid_eda/clean.py:10 | The resample has one bucket per hour, from the hour of the earliest timestamp to that of the latest, with strictly ascending starts. |
| `Series.DropIncompleteMembers` | src/microgrid_eda/clean.py:13 | `dropna()` keeps a bucket exactly when every mean in it is present. It keeps that bucket's values. |
| `Series.DropIncompleteShorter` | src/microgrid_eda/clean.py:13 | `dropna()` keeps at most as many rows as there were buckets. `DropIncompleteMembers` states which ones it keeps. |
| `Series.HourlyAscending` | src/microgrid_eda/clean.py:6-13 | The output hours are strictly ascending (compare tests/test_clean.py lines 50-55). |
| `Series.HourlyFromBucket` | src/microgrid_eda/clean.py:10-13 | Every output row is a complete reference bucket: its hour lies in the span and its values are that bucket's means. |
| `Series.HourlyInSpan` | src/microgrid_eda/clean.py:10-13 | Each output hour is an hour edge between the hour of the earliest timestamp and that of the latest. |
| `Series.HourlyCells` | src/microgrid_eda/clean.py:10-13 | Each output row has one value per value column. Each value is the mean of that column's present values among the rows of that hour. |
| `Series.OutputHourIsFull` | src/microgrid_eda/clean.py:10-13 | An hour in the output is a full hour: inside the span, with a present value in every column. |
| `Series.FullHourIsOutput` | src/microgrid_eda/clean.py:10-13 | A full hour appears in the output. |
| `Series.HourlyMembership` | src/microgrid_eda/clean.py:10-13 | An hour appears in the output if and only if it is a full hour. So no missing value survives (compare tests/test_clean.py lines 44-48). |
| `Series.HourlySize` | src/microgrid_eda/clean.py:10-13 | An empty frame gives no rows. Otherwise there are at most as many rows as hours spanned. With a value column, there are at most as many rows as input rows. |
| `Series.HourlyPermutation` | src/microgrid_eda/clean.py:6-13 | The result does not depend on the order of the input rows. |
| `Clean.FindTimestamp` | src/microgrid_eda/clean.py:5 | `df["timestamp"]` finds one column exactly when one label is `timestamp`. Otherwise the result is the missing error when there is no such label, and the duplicate error when there are two. |
| `Clean.NormalizeColumns` | src/microgrid_eda/clean.py:4 | The relabelling keeps the number of columns. It renames the column at each position to `c.lower().strip()` (`Text.Normalize`). `NormalizeIsNormalized`, `NormalizeIdempotent` and `StripIsCut` state what the new names look like. |
| `Clean.ToRow` | src/microgrid_eda/clean.py:6 | `set_index("timestamp")` takes the row's time from the timestamp cell. The other cells keep their order and become values, with a missing cell as no value. |
| `Clean.ParseRows` | src/microgrid_eda/clean.py:6 | `set_index("timestamp")` keeps the number and the order of the rows. Row k of the result is row k of the frame, re-indexed by `ToRow`. `ParseRowsPermutation` states that permuted rows give permuted results. |
| `Clean.Standardize` | src/microgrid_eda/clean.py:3-14 | Succeeds exactly when one column is renamed `timestamp`, every timestamp cell holds a timestamp, and every value cell is a number or missing. The result's columns are then the renamed columns less `timestamp`, and its rows are the reference hourly result of the parsed rows. |
| `Clean.HourlyFrame` | src/microgrid_eda/clean.py:6-13 | The sort, resample and `dropna` of lines 6-13 give the reference hourly result of the parsed rows. |
| `Clean.StandardizeErrors` | src/microgrid_eda/clean.py:4-10 | The missing error occurs exactly when no input label renames to `timestamp`. The duplicate error occurs exactly when two renamed labels are `timestamp`. With one such label, the unparseable-timestamp error occurs exactly when some timestamp cell holds no timestamp, whatever the value cells hold. The non-numeric error occurs exactly when every timestamp parses but some value cell is a timestamp or a string. |
| `Clean.StandardizeColumns` | src/microgrid_eda/clean.py:4-6 | A successful result has one column fewer than the input, none named `timestamp`, all lower-case and stripped. As a set they are the renamed labels less `timestamp` (compare tests/test_clean.py lines 22-26). |
| `Clean.ParseRowsPermutation` | src/microgrid_eda/clean.py:6 | Re-indexing rows that are a permutation of each other gives parsed rows that are a permutation of each other. |
| `Clean.StandardizePermutation` | src/microgrid_eda/clean.py:3-14 | Two frames with the same columns whose rows are a permutation of each other standardize to the same result, error or success. |
| `Clean.NoCollisionError` | src/microgrid_eda/clean.py:4 | For any frame that otherwise standardizes, two value labels that rename to the same name raise no error. Both are kept, as two columns of that name, each at its own place among the labels other than `timestamp`. |
| `Clean.CollidingNames` | src/microgrid_eda/clean.py:4 | `"Consumption "` and `"consumption"` rename to the same label. |
| `Clean.SampleNames` | tests/test_clean.py:7-26 | The fixture's labels rename to `timestamp`, `consumption` and `solar`. |
| `Clean.SampleBuckets` | tests/test_clean.py:11-16 | The fixture's 12:00 and 12:30 readings fall in the noon hour. Its 13:00 and 13:30 readings fall in the next hour. |
| `Clean.SampleMeans` | tests/test_clean.py:34-42 | The noon hour averages to 10.75 and 5.25. The next hour averages to 12.75 and 6.0, because the missing solar reading is skipped. |
| `Clean.SampleHourly` | tests/test_clean.py:34-48 | Both hours of the fixture are complete, so both are kept. |
| `Clean.SampleStandardized` | tests/test_clean.py:7-48 | `standardize` of the fixture gives columns `consumption` and `solar` and two rows, 12:00 and 13:00, with means (10.75, 5.25) and (12.75, 6.0). |
| `Io.MissingNames` | src/microgrid_eda/io.py:31 | A name is reported missing exactly when it is required and is not a column label, compared exactly. |
| `Io.ValidateSchema` | src/microgrid_eda/io.py:21-38 | The check fails with the missing-columns error exactly when some required name is absent. That error lists the absent names, sorted, without repetition. With every required name present, the check passes exactly when the timestamp column exists or the index is a DatetimeIndex. Otherwise it fails with the timestamp error. |
| `Io.ValidateSchemaSetOnly` | src/microgrid_eda/io.py:31-33 | The verdict and the message depend on the required names only as a set. |
| `Io.NoneMatch` | src/microgrid_eda/io.py:31-33 | When the required names form a non-empty, sorted list without repetition and none of them is a column, the message is that list itself. |
| `Io.OneMissing` | src/microgrid_eda/io.py:31-33 | When exactly one required name is absent, the message names it alone, whatever the timestamp check would say. |
| `Io.CaseSensitiveSchema` | src/microgrid_eda/io.py:13-33 | Lower-case `consumption`, `solar` and `wind` do not satisfy the required names. All three are reported, even with a DatetimeIndex. |
| `Io.MissingColumnsFirst` | src/microgrid_eda/io.py:31-38 | For any table with neither the timestamp column nor a DatetimeIndex that also lacks a required name, the missing-columns error is the one raised, not the timestamp error. |
| `Io.Without` | src/microgrid_eda/io.py:92 | `set_index` keeps exactly the labels other than the timestamp column. |
| `Io.WithoutOne` | src/microgrid_eda/io.py:92 | With a unique timestamp label, the remaining labels keep their file order. |
| `Io.SetTimestampIndex` | src/microgrid_eda/io.py:88-100 | The step fails exactly when the timestamp column is present and parsing is off, and then with the not-datetime error. On success the timestamp column is gone. Exactly the other labels remain. The index is a DatetimeIndex exactly when the column was present. A column with a missing cell is still flagged unless it left for the index. Without the column, the labels are unchanged. |
| `Io.LoadRawData` | src/microgrid_eda/io.py:61-105 | A missing file is an error, and so is a read that raised. A load succeeds exactly when the file was found and read, the timestamp column was found and parsed into a DatetimeIndex, and every required name is among the other columns. Those columns keep their file order and their missing-cell flags; the timestamp column, now the index, is no longer flagged. A timestamp column with parsing off is the not-datetime error. A required name absent from the other columns is the missing-columns error, listing exactly the absent names. Without the timestamp column but with every required name, the load fails the schema's timestamp check. |
| `Io.LoadDefaultRequired` | src/microgrid_eda/io.py:72-73 | Omitting the required names means the three expected ones. |
| `Io.RequiredOrDefault` | src/microgrid_eda/io.py:72-73 | Omitted required names mean the three expected ones. Names that are passed are used as given. `LoadDefaultRequired` states the effect on a load. |
| `Io.LowerMatches` | src/microgrid_eda/io.py:132-134 | `fmt.lower()` equals a lower-case word exactly when `fmt` spells that word with each letter in either case. |
| `Io.SaveDecision` | src/microgrid_eda/io.py:127-137 | With `fail_on_missing` set, a missing value is an error before the format is looked at. Without it, that error never occurs. Past the guard, the CSV writer is chosen exactly for any-case `csv`, the parquet writer exactly for `parquet` or `pq`, and any other format is unsupported. |
| `Io.SaveProcessedData` | src/microgrid_eda/io.py:127-137 | The missing-values error occurs exactly when `fail_on_missing` is set and some column has a missing cell. An unsupported-format error carries the format as passed. `SaveDecision` states the choice of writer. |
| `Io.SampleLoad` | tests/test_io.py:8-14 | The file with `index,Consumption,Solar,Wind` loads with a DatetimeIndex and columns `Consumption`, `Solar`, `Wind`. |
| `Io.SampleSave` | tests/test_io.py:16-17 | That table saves with the CSV writer. |

## Left out

- File effects are parameters, not modelled: the existence test, `read_csv`, `to_csv`, `to_parquet` and the writer exceptions that lines 138-140 re-raise. A read that raises is the `None` value of the `read` parameter.
- Path handling (`_ensure_path`), `mkdir` of the output directory (it runs before the missing-value guard, so it happens even when saving fails), and all logging.
- The `index` parameter of `save_processed_data`, and the `usecols`, `dtype` and `low_memory` arguments of `load_raw_data`: they only change what the file effects do.
- Parsing of date strings: timestamps arrive parsed, as whole seconds since the epoch. In `standardize`, a string in the timestamp column that does not parse is `UnparseableTimestamp`, because `to_datetime` without `errors="coerce"` raises on it.
- `Clean.TimestampsParse`: a missing cell in the timestamp column is `UnparseableTimestamp` in the model. `to_datetime` turns it into NaT without raising, and the resample then leaves that row out of every hour. This is a divergence.
- `Clean.TimestampsParse`: a number in the timestamp column is `UnparseableTimestamp` in the model. `to_datetime` reads it as nanoseconds since the epoch, so 5.0 gives a row at 1970-01-01 00:00. This is a divergence.
- In `load_raw_data`, `errors="coerce"` always yields a DatetimeIndex, so parsed timestamp values are not tracked there. Time zones, and mixtures of them, are not modelled.
- A string or a timestamp in a value column is `NonNumericValue`. For a string this is the error pandas raises on the mean. For a timestamp it stands for that error too; the mean of a column holding only timestamps is not modelled.
- Floating point: values are exact reals, so means are exact, and NaN is the missing marker.
- Pandas' `sort_values` default is not a stable sort; the model sorts stably. The output is the same either way, as `HourlyPermutation` shows.
- `Text.Lower` and `Text.Strip` work on ASCII only; Python maps and strips more Unicode characters. For the format names of `save_processed_data` this is exact, since no non-ASCII character lower-cases to a letter of `csv`, `parquet` or `pq`.
- `standardize` changes the caller's frame in place: the renamed labels and the parsed timestamp column stay in it, even when a later step raises. The model returns a new value.
- The `freq` attribute of the resulting index (checked by tests/test_clean.py line 38) is not modelled. The output rows carry their hour starts instead.
- `read_csv` renames repeated header labels, so the labels of a loaded table are taken to be distinct.
- `Clean.ToRow`: on a row with no cell at the timestamp position, this states nothing. Such a row cannot occur in a rectangular frame.
