# AIS GPS-spoofing detection, modelled in Dafny

The repository reads AIS (Automatic Identification System) vessel reports from CSV files. Each report carries an MMSI (the vessel's identity), a timestamp and a latitude/longitude. It flags positions that are physically implausible. This project models its three algorithmic parts and proves what they do.

- **`gps_spoofing.py`**
  - Splitting a table into `num_chunks` consecutive chunks (`SpoofingChunks`, on top of `Slicing`).
  - The vectorised speed between consecutive reports of one vessel (`SpoofingSpeed`).
  - Sorting a chunk by vessel and time, then grouping it by vessel (`SpoofingSort`).
  - Building the per-vessel dictionary of "Implausible speed" records (`SpoofingDetect`).
- **`task_1.py`**
  - Reading a per-vessel file 100 rows at a time.
  - Reporting every row more than 50 km from the previous row *of the same chunk* (`DistanceCheck`).
- **`delete_bad_files.py`**
  - Dropping the placeholder rows (latitude 91, longitude 0).
  - Then deleting a file whose vessel never moves, or writing the cleaned rows back (`BadRows`).

Modelling choices:
- **Missing values.** A missing cell (NaN, NaT) is `None` of an `Option`.
- **Timestamps** are integer seconds.
- **Distance.** The great-circle distance is a parameter, and so is the floating-point `== np.inf` test. In `SpoofingSpeed` they form the `Metric` datatype; in `DistanceCheck` the distance is a function argument.
- **Exceptions** are explicit outcomes:
  - `Result` values;
  - `FileOutcome.ProcessingError`;
  - `Decision.ProcessingError`.
- **State changes.** DataFrames that the source changes in place are objects or local arrays:
  - `DistanceCheck.CsvChunk` and its `ProcessChunk`;
  - the `time_diff` and `distances` arrays of `CalculateSpeedVectorized`.
- **Loops.** Loops of the source are loops here:
  - the group loop and the record loop of `DetectSpoofingInChunk` / `ScanGroup`;
  - the chunk loop of `ProcessFile`.
  
  Each is proved equal to a specification function. The properties are lemmas about those functions.

One might expect `split_csv_into_chunks(csv_file_path, N)` to yield exactly `N` chunks. The code yields *at most* `N`: 9 rows in 4 chunks give 3 chunks of 3 (`SpoofingChunks.NineRowsInFourChunks`).

A file with a header and no rows still gives `process_file` one empty chunk, because the CSV reader always returns a frame on its first read (`DistanceCheck.ReaderChunks`). Such a file therefore ends in the error branch when its header lacks `Latitude` or `Longitude`, and prints "No anomalies detected" otherwise. The per-vessel files always carry both columns (create_a_directory_of_mmsi.py:7), so the error branch cannot arise for them.

## Model

| member | source | states |
|---|---|---|
| `Slicing.Slices` | gps_spoofing.py:9 | every slice is nonempty and holds at most `size` rows |
| `Slicing.FlattenSlices` | task_1.py:37 | the slices, concatenated, are the input rows: nothing lost, duplicated or reordered |
| `Slicing.SlicesShape` | gps_spoofing.py:9 | the number of slices is the ceiling of rows/size, and every slice but the last has exactly `size` rows |
| `Slicing.SliceAt` | gps_spoofing.py:9 | slice `j` is rows `j*size .. min((j+1)*size, n)` |
| `Slicing.FlattenAppend` | gps_spoofing.py:9 | concatenating slices distributes over appending lists of slices |
| `SpoofingChunks.SplitIntoChunks` | gps_spoofing.py:6-10 | ZeroDivisionError exactly when `num_chunks == 0`; every chunk it returns is nonempty (the full case analysis, error on a zero ceiling, no chunks for a negative step, otherwise the consecutive `ceil(n/k)`-row slices, is in the lemmas below) |
| `SpoofingChunks.ChunkSize` | gps_spoofing.py:8 | `int(np.ceil(n/k))` for either sign of `k`: the least `s` with `n <= s*k` when `k > 0`, the mirrored bound when `k < 0` |
| `SpoofingChunks.SplitFailsIff` | gps_spoofing.py:8-9 | the split raises exactly when `num_chunks == 0` (ZeroDivisionError), or when the table is empty or holds fewer rows than `-num_chunks` (a `range` step of zero); the first is the only ZeroDivisionError |
| `SpoofingChunks.SplitNegative` | gps_spoofing.py:8-9 | a negative `num_chunks` that does not raise gives no chunks at all |
| `SpoofingChunks.SplitCovers` | gps_spoofing.py:9 | for a nonempty table and a positive count the chunks reassemble the table |
| `SpoofingChunks.SplitSizes` | gps_spoofing.py:8-9 | at most `num_chunks` chunks; all but the last have `ceil(n/num_chunks)` rows; the last is nonempty; chunk `j` is the `j`-th row range |
| `SpoofingChunks.NineRowsInFourChunks` | gps_spoofing.py:8-9 | 9 rows asked for in 4 chunks give 3 chunks |
| `SpoofingChunks.MulMono` | gps_spoofing.py:8 | helper, generic arithmetic for the ceiling bounds: multiplying by a nonnegative factor is monotone |
| `SpoofingSpeed.TimeDiff` | gps_spoofing.py:29-31 | the elapsed hours are present exactly when both timestamps exist and differ; a present value is nonzero and is the raw difference |
| `SpoofingSpeed.Hours` | gps_spoofing.py:29 | the elapsed hours between two timestamps are zero exactly when the timestamps are equal |
| `SpoofingSpeed.SpeedAtIff` | gps_spoofing.py:25-38 | the speed of sample `i` is distance over elapsed hours when it has a predecessor with both positions and both timestamps present and different timestamps, and 0 otherwise |
| `SpoofingSpeed.SameTimestampSpeedZero` | gps_spoofing.py:29-38 | two consecutive reports at the same instant give no elapsed time and speed 0, never a division by zero |
| `SpoofingSpeed.FirstSpeedZero` | gps_spoofing.py:25-38 | the first sample's shifted predecessor is missing and its speed is 0 |
| `SpoofingSpeed.CalculateSpeedVectorized` | gps_spoofing.py:23-39 | one speed per sample, each equal to the specified `SpeedAt` |
| `SpoofingSort.Insert` | gps_spoofing.py:43 | inserting adds exactly the one report |
| `SpoofingSort.SortChunk` | gps_spoofing.py:43 | sorting is a permutation of the chunk |
| `SpoofingSort.SortChunkSorted` | gps_spoofing.py:43 | the sorted chunk is ordered by MMSI, then timestamp, with missing timestamps last |
| `SpoofingSort.InsertSorted` | gps_spoofing.py:43 | inserting into a sorted chunk keeps it sorted |
| `SpoofingSort.KeyLessTransitive` | gps_spoofing.py:43 | the sort order on (MMSI, timestamp) is transitive |
| `SpoofingSort.GroupOf` | gps_spoofing.py:46 | a group holds only reports of the chunk with that MMSI |
| `SpoofingSort.GroupOfAppend` | gps_spoofing.py:46 | grouping distributes over concatenation |
| `SpoofingSort.GroupOfNone` | gps_spoofing.py:46 | a vessel absent from the rows has an empty group |
| `SpoofingSort.GroupOfAll` | gps_spoofing.py:46 | rows all of one vessel form its whole group |
| `SpoofingSort.GroupOfSnoc` | gps_spoofing.py:46 | appending one report extends its own vessel's group only |
| `SpoofingSort.GroupOfInsert` | gps_spoofing.py:43-46 | inserting a report changes only its vessel's group, by that one report |
| `SpoofingSort.GroupOfSortChunk` | gps_spoofing.py:43-46 | sorting does not change which reports a vessel's group holds |
| `SpoofingSort.MmsisSortChunk` | gps_spoofing.py:43-46 | sorting does not change the set of vessels |
| `SpoofingSort.MmsisAppend` | gps_spoofing.py:46 | the vessels of a concatenation are the union of the vessels |
| `SpoofingSort.GroupOfSortedTimeOrdered` | gps_spoofing.py:43-46 | in a sorted chunk each vessel's group is in time order with missing timestamps last |
| `SpoofingSort.ConsTimeOrdered` | gps_spoofing.py:43-46 | a report of the same vessel that no report of a time-ordered group precedes keeps the group time-ordered when placed first |
| `SpoofingSort.MmsiMonotone` | gps_spoofing.py:43 | in a sorted chunk MMSIs do not decrease |
| `SpoofingSort.RunIsolated` | gps_spoofing.py:43-46 | in a sorted chunk a maximal run of one MMSI has no other report of that MMSI before or after it |
| `SpoofingSort.GroupIsRun` | gps_spoofing.py:46 | in a sorted chunk a vessel's group is exactly its maximal run, and that vessel is new at the run's start |
| `SpoofingSort.RunGroup` | gps_spoofing.py:46 | a run outside which the vessel does not occur is its group |
| `SpoofingSort.RunMmsis` | gps_spoofing.py:46 | the vessels seen up to the end of a run are those before it plus the run's vessel |
| `SpoofingDetect.EmitsIff` | gps_spoofing.py:53-73 | with a nonnegative threshold a sample yields a record exactly when it has a measurable predecessor and distance/hours exceeds the threshold and is finite, and it never raises |
| `SpoofingDetect.RecordsIndexed` | gps_spoofing.py:53-90 | the records are those of the emitting samples, in increasing sample order, and a sample emits iff it is among them |
| `SpoofingDetect.RecordsChronological` | gps_spoofing.py:43-90 | in a time-ordered group records are chronological; with a nonnegative threshold strictly, each record's previous time before its current time |
| `SpoofingDetect.RecordTimes` | gps_spoofing.py:60-82 | in a time-ordered group each record's previous time is no later than its current time, strictly earlier under a nonnegative threshold |
| `SpoofingDetect.RecordsAscend` | gps_spoofing.py:60-82 | in a time-ordered group a later record's current time is no earlier than an earlier record's, and strictly later under a nonnegative threshold |
| `SpoofingDetect.RecordFacts` | gps_spoofing.py:53-90 | every record says "Implausible speed" with a finite speed above the threshold; with a nonnegative threshold its distance is present and its speed is distance over the elapsed hours |
| `SpoofingDetect.ShortGroupNoRecords` | gps_spoofing.py:49-70 | a group of at most one report yields no record |
| `SpoofingDetect.TrackFacts` | gps_spoofing.py:43-46 | a vessel's track is a permutation of that vessel's reports and is time-ordered |
| `SpoofingDetect.DetectSucceeds` | gps_spoofing.py:42-60 | with a nonnegative threshold, such as the default 50.0, detection never raises |
| `SpoofingDetect.DetectKeys` | gps_spoofing.py:75-80 | a vessel has a key iff it occurs in the chunk and its track yields a record; the key holds exactly those records, never an empty list |
| `SpoofingDetect.DetectChronological` | gps_spoofing.py:43-90 | every vessel's list is in chronological order |
| `SpoofingDetect.SingleReportNoAnomaly` | gps_spoofing.py:46-80 | a vessel with at most one report never gets a key |
| `SpoofingDetect.SameTimestampNoRecords` | gps_spoofing.py:29-53 | with a nonnegative threshold, a group whose reports share one timestamp yields no record |
| `SpoofingDetect.NoEmitsNoRecords` | gps_spoofing.py:55-90 | without an emitting sample there are no records |
| `SpoofingDetect.SameTimestampNoAnomaly` | gps_spoofing.py:29-80 | with a nonnegative threshold, a vessel whose reports share one timestamp never gets a key |
| `SpoofingDetect.GroupStep` | gps_spoofing.py:46 | one step of the group loop: the next run of the sorted chunk is the next vessel's whole group and that vessel has no key yet |
| `SpoofingDetect.GroupAdvance` | gps_spoofing.py:46-80 | after a run that does not raise, the dictionary with that vessel's records added lazily is the specification over the vessels seen so far, none of which raised |
| `SpoofingDetect.PartialStep` | gps_spoofing.py:46-80 | the dictionary after one more vessel is the previous one with that vessel's records added lazily |
| `SpoofingDetect.DetectFails` | gps_spoofing.py:60 | a group that raises makes the whole chunk raise |
| `SpoofingDetect.DetectSucceedsWith` | gps_spoofing.py:44-94 | when the loop has walked every vessel without a raise, the dictionary it built is the chunk's result |
| `SpoofingDetect.ScanGroup` | gps_spoofing.py:47-92 | the record loop raises iff some flagged sample lacks its timestamp; otherwise it adds the group's records under its MMSI, creating the key only when there is a record |
| `SpoofingDetect.DetectSpoofingInChunk` | gps_spoofing.py:42-94 | the result equals the specification `Detect` |
| `SpoofingDetect.ProcessChunksWithPrint` | gps_spoofing.py:97-108 | at most one dictionary; none exactly when the chunk is empty or yields an empty dictionary; otherwise the chunk's result at the default threshold |
| `DistanceCheck.RenameColumns` | task_1.py:18-19 | the rename keeps the number of columns, leaves no `'# Timestamp'` behind, and changes nothing when that column is absent |
| `DistanceCheck.RenameFacts` | task_1.py:18-19 | `'# Timestamp'` becomes `'Timestamp'`, every other column is untouched, and a header without it is unchanged |
| `DistanceCheck.ChunkAnomaliesIndexed` | task_1.py:21-29 | a chunk's result is its rows at strictly increasing positions; a row is reported iff it has a predecessor in the chunk, both positions are present and their distance exceeds 50 km |
| `DistanceCheck.SelectedPairs` | task_1.py:22-29 | each reported row is paired with its present distance above 50 km |
| `DistanceCheck.SelectedMembership` | task_1.py:26-29 | reported positions are increasing, and a position is reported iff it passes the test |
| `DistanceCheck.FirstRowNeverReported` | task_1.py:21-26 | the first row of a chunk is never reported |
| `DistanceCheck.BoundaryAwarePrefix` | task_1.py:36-39 | the file reference over the first rows depends only on those rows |
| `DistanceCheck.BoundaryAwareInChunk` | task_1.py:21-29 | within a single chunk the file reference equals the chunk's result |
| `DistanceCheck.BoundaryAwareShift` | task_1.py:36-39 | the file reference splits at a 100-row boundary into the first chunk and the rest |
| `DistanceCheck.FileAnomaliesReference` | task_1.py:36-39 | the file's anomalies, the per-chunk results concatenated in chunk order, are exactly the rows not first in their 100-row chunk that lie over 50 km from the previous row; pairs across a boundary are never compared |
| `DistanceCheck.BoundaryAwareEmpty` | task_1.py:36-41 | the file reference is empty iff no tested row (one not first in its 100-row chunk) is farther than 50 km from its predecessor |
| `DistanceCheck.KeepFar` | task_1.py:22-29 | a row contributes one report when it is farther than 50 km from its predecessor and none otherwise |
| `DistanceCheck.BoundaryAwareConcat` | task_1.py:36-39 | the file reference is the concatenation of the per-row contributions of the tested rows |
| `DistanceCheck.ReaderChunks` | task_1.py:36-37 | the reader yields at least one chunk, each of at most 100 rows; it yields the single empty chunk exactly for a file without rows |
| `DistanceCheck.NoAnomaliesIff` | task_1.py:37-45 | "No anomalies detected" iff the position columns exist and no row passes the boundary-aware test |
| `DistanceCheck.CsvChunk.constructor` | task_1.py:37 | a fresh chunk holds the given header and rows, with no `Distance` column yet |
| `DistanceCheck.ProcessChunk` | task_1.py:17-29 | renames in place, raises when a position column is missing, sets the `Distance` column to the shifted distances, and returns the chunk's anomalies |
| `DistanceCheck.ProcessFile` | task_1.py:31-48 | the result of the chunk loop equals the specification `Outcome`: error, no anomalies, or the concatenated anomalies |
| `BadRows.Clean` | delete_bad_files.py:13 | the filter keeps only rows that are in the input and not bad |
| `BadRows.Decide` | delete_bad_files.py:13-21 | the exception branch is taken exactly when a position column is missing, and a rewrite writes back exactly the filtered rows |
| `BadRows.CleanAppend` | delete_bad_files.py:13 | the filter distributes over concatenation |
| `BadRows.KeptRows` | delete_bad_files.py:13 | each kept row is the row at its kept position |
| `BadRows.KeptOrder` | delete_bad_files.py:13 | kept positions increase, and a position is kept iff its row is not bad |
| `BadRows.CleanIndexed` | delete_bad_files.py:13 | a row is removed iff its latitude is 91.0 and its longitude 0.0; all other rows are kept in order |
| `BadRows.NearMissesKept` | delete_bad_files.py:13 | a row at latitude 91 with another longitude, or at longitude 0 with another latitude, is kept |
| `BadRows.CleanIdempotent` | delete_bad_files.py:13 | filtering twice equals filtering once |
| `BadRows.SingletonCard` | delete_bad_files.py:15 | helper, generic sets: a set has one element iff it is a singleton |
| `BadRows.DistinctSingleton` | delete_bad_files.py:15 | a column's distinct present values are `{x}` iff `x` occurs and every present value is `x` |
| `BadRows.UniqueOnce` | delete_bad_files.py:15 | `nunique() == 1` iff the column is constant over its present values, with at least one present |
| `BadRows.DeleteIff` | delete_bad_files.py:13-21 | the file is deleted iff, after filtering, latitude and longitude are each one value |
| `BadRows.RewriteKeepsClean` | delete_bad_files.py:15-21 | otherwise exactly the filtered rows are written back; a file of only bad rows is rewritten empty, not deleted |

## Left out

- The haversine formula (`calculate_distance`, `vectorized_haversine`) is left out. Distance is a parameter, because floating-point trigonometry cannot be reasoned about here. Nothing is proved about symmetry or the triangle inequality.
- Floating-point semantics (NaN propagation, infinity, rounding) are left out. Missing values are `Option`, and `== np.inf` is an abstract test supplied with the distance.
- `ChunkSize` computes the exact integer ceiling. The source computes `np.ceil` of the rounded float quotient `len(df)/num_chunks`; the two agree for table sizes below 2^53, and larger tables are not modelled.
- Datetime parsing (`pd.to_datetime` with `'%d/%m/%Y %H:%M:%S'`) and `strftime` formatting are left out. Timestamps are integer seconds, and a record keeps them unformatted. A report whose timestamp text fails to parse is not modelled.
- `SortChunk` orders by `(MMSI, timestamp)` like `sort_values`; reports with equal keys keep their input order, as pandas' multi-key sort does. The sort is an insertion sort, not pandas' algorithm.
- `SpoofingDetect.Detect` returns a map. The insertion order of the Python dictionary, which is ascending MMSI after the sort, is not modelled.
- The `print` diagnostics are left out, including the infinity-skip message and the "Detected anomaly" line.
- JSON output (`save_anomalies_to_json`) is left out.
- CSV reading and writing, `os.remove` and `to_csv` are left out. `BadRows.Decide` returns the decision instead of performing it.
- The `ProcessPoolExecutor` and `Pool` mains, and process parallelism in general, are left out.
- `split_csv_into_chunks` receives the rows directly; `pd.read_csv` is not modelled.
- A `DistanceCheck` row carries only its timestamp and position, and a `BadRows` row only its position. Other columns are not modelled.
- Exceptions other than the modelled ones (missing position columns, missing `Timestamp` when printing, NaT formatting, a zero or too-negative `num_chunks`) are not modelled. That includes unreadable files and non-numeric cells.
- gps_spoofing_detection.py (command-line handling, download, unzip, logging, timing) is not part of this model.
- create_a_directory_of_mmsi.py is not part of this model.
