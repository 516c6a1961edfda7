# ISD station lookup — a Dafny model

This project models the station resolution engine of the ISD station lookup tool and the bulk
load of its station catalog. Given a target latitude and longitude, the engine:

1. queries the StationHistory table for records with a longitude;
2. orders them by squared planar distance to the target and keeps the first 100;
3. optionally keeps only active stations (END later than today minus two weeks);
4. attaches the rounded geodesic distance in miles (`distance_miles`);
5. drops the `999999` placeholder;
6. returns every row at the minimum distance, or the (USAF, WBAN, distance) of the first of them.

The batch variant does the same for every row of a table of points and appends three columns.
The bulk loader inserts the catalog into the store in chunks of 10,000 records.

Modules:

- `Wrappers` (`wrappers.dfy`): `Option` and `Result`.
- `SeqUtil` (`seq_util.dfy`): order-preserving `Filter` (a boolean mask on a table), `IsSubsequence` and `Concat`.
- `Models` (`models.py`, in `models.dfy`):
  - the `StationRecord` datatype (USAF and WBAN required, every other column optional; dates as day numbers);
  - the UNIQUE (USAF, WBAN) invariant;
  - the `StationStore` class, whose `ClearDb` and `InsertMany` change the table in place.
- `DbTools` (`db_tools.py`, in `db_tools.dfy`):
  - the chunks visited by the `populate_db` loop, as functions;
  - the loop itself, as the `PopulateDb` method over a `StationStore`.
- `Lookup` (`lookup.py`, in `lookup.dfy`): the resolution pipeline as pure functions over the catalog's rows.

Parameters stand in for what the program gets from outside:

- the catalog is the sequence of stored rows;
- "today" is a day number;
- the geodesic distance (geopy) and the three-decimal rounding (`np.round`) are the two function fields of a `Measure` value.

Behaviour of the program that the model keeps:

- Only USAF `999999` is excluded (lookup.py:84). Records with WBAN `99999` or with a USAF starting with `A` can be returned.
- The single match is the first tied row in candidate order (lookup.py:86-92).
- A catalog with no located station makes the selection fail (the result frame has no columns to rename, lookup.py:44-47).
- An empty candidate set after filtering raises nothing of its own. Multi-match mode returns an empty result, because the minimum of nothing equals nothing. Single-match mode fails when it indexes the first row (lookup.py:90).
- A table of points with both coordinate columns but no rows fails (lookup.py:111-116); see Findings.
- The lookup code itself checks no latitude or longitude range. The geodesic distance library rejects an out-of-range latitude (lookup.py:62); that check is not modelled (see the first line under "## Left out").

## Model

| member | source | states |
|---|---|---|
| `SeqUtil.Filter` | lookup.py:84 | A mask keeps exactly the elements satisfying the condition, in their original order, and never lengthens the sequence |
| `SeqUtil.FilterMultiplicity` | lookup.py:84 | A kept element keeps its multiplicity, a dropped one has none left |
| `Lookup.InsertBy` | lookup.py:38-40 | Inserting into a planar-ordered sequence keeps it ordered and adds exactly that record |
| `Lookup.SortBy` | lookup.py:38-40 | ORDER BY yields an ascending permutation of the rows (NULL keys first) |
| `Lookup.CutKeepsRecords` | lookup.py:43 | Cutting a permutation of the rows keeps a sub-multiset of them, so only queried records |
| `Lookup.CutKeepsNearest` | lookup.py:38-43 | Cutting an ordered permutation keeps an ordered prefix; no dropped record is strictly closer than a kept one |
| `Lookup.CappedCandidates` | lookup.py:23-43 | The query result holds only catalog records with a longitude, ascending in planar distance. It has min(100, #located) rows, all of them when at most 100 qualify, and no left-out located record is strictly closer than a kept one |
| `Lookup.SelectClosestStations` | lookup.py:11-53 | Fails exactly when no record has a longitude. Otherwise returns at most 100 rows, order preserved. With active_only these are exactly the capped rows whose END is after today-14, with no refill; without it, the capped rows unchanged |
| `Lookup.CalcDistanceActual` | lookup.py:56-67 | Same row count, same records in the same order, each with distance_miles = rounded geodesic distance to the target. Fails exactly when a row lacks a coordinate |
| `Lookup.DropSentinel` | lookup.py:83-84 | Keeps exactly the rows whose USAF is not 999999, order preserved |
| `Lookup.MinDistance` | lookup.py:86-87 | The minimum is attained by some row and is at most every row's distance |
| `Lookup.Closest` | lookup.py:86-87 | Returns exactly the rows at the minimum distance, all sharing one value, order preserved. Empty only when the input is empty |
| `Lookup.FindClosest` | lookup.py:70-89 | Succeeds exactly when selection and refinement do. Never returns a 999999 row. Returns exactly the surviving rows at the survivors' minimum distance, all tied. Empty exactly when no non-placeholder candidate exists |
| `Lookup.FindClosestTuple` | lookup.py:88-92 | Propagates the lookup's error. Fails by indexing when the result is empty. Succeeds exactly when the multi-match lookup succeeds with at least one row, and then returns the (USAF, WBAN, distance) of its first row, never a 999999 row |
| `Lookup.ClosestHead` | lookup.py:86-92 | The first row of the tied set is the earliest row at the minimum distance |
| `Lookup.TupleIsFirstMinimal` | lookup.py:75-92 | The single match is the earliest surviving candidate at the minimum distance; every earlier survivor is strictly farther |
| `Lookup.ColumnIndex` | lookup.py:108 | Finds a column exactly when the label is present, at a position holding that label |
| `Lookup.LabelRows` | lookup.py:111-118 | Succeeds exactly when every row resolves. Each output row is the input row followed by its match's USAF, WBAN, distance. On failure the error is that of the first failing row |
| `Lookup.LabelPoints` | lookup.py:108-120 | The intended labelling. Rejects a table lacking Latitude or Longitude. Otherwise succeeds exactly when every row's coordinates are numbers that resolve. The output has the original columns followed by USAF, WBAN, distance_miles, and the same rows in the same order: each is the original cells, then the three cells of that row's match |
| `Lookup.LabelTable` | lookup.py:108-120 | The labelling as the program performs it. Rejects a table lacking Latitude or Longitude, and fails on a table with both columns but no rows. Otherwise succeeds exactly when every row's coordinates are numbers that resolve, with the same output as `LabelPoints` |
| `Lookup.FindClosestCsv` | lookup.py:95-123 | Rejects a table lacking Latitude or Longitude, and one with no rows. A labelled table has the original columns followed by USAF, WBAN, distance_miles, and one row per input row |
| `Lookup.CsvSucceedsIff` | lookup.py:108-116 | A table with both coordinate columns is labelled exactly when it has rows and every row has numeric coordinates at which the multi-match lookup finds at least one station |
| `Lookup.HeaderOnlyTableFails` | lookup.py:111-116 | A table with both coordinate columns and no rows fails, where the intended labelling gives an empty table with the three result columns |
| `Lookup.CsvRowIsClosestMatch` | lookup.py:111-120 | Row i of a labelled table is input row i followed by the USAF, WBAN and distance of the single-match lookup (`FindClosestTuple`) at that row's coordinates, against the same catalog |
| `Models.DuplicateKeyRejected` | models.py:33-35 | Inserting a record whose (USAF, WBAN) pair is already stored raises IntegrityError |
| `Models.StationStore.constructor` | models.py:8-10 | A fresh database handle has no station table and no rows |
| `Models.StationStore.ClearDb` | models.py:38-44 | After clear_db the station table exists and is empty |
| `Models.StationStore.InsertMany` | db_tools.py:64 | Appends the whole chunk, reporting its size, exactly when the table exists, the statement fits the variable limit and the (USAF, WBAN) pairs stay unique; otherwise raises OperationalError or IntegrityError and appends nothing. Keeps the store invariant |
| `DbTools.ChunkShape` | db_tools.py:53-63 | Chunk i is the contiguous slice [i*10000, min((i+1)*10000, len)); both branches give that slice, which holds 1 to 10000 records |
| `DbTools.ChunkCount` | db_tools.py:58 | There is a k-th chunk exactly when k*10000 is below len-1, the loop guard |
| `DbTools.ChunksDrop` | db_tools.py:58-66 | After k chunks the loop index is k*10000 and the remaining chunks start there |
| `DbTools.ChunksPrefix` | db_tools.py:58-66 | The first k chunks together are exactly list[0 : min(k*10000, len)]: no overlap, list order |
| `DbTools.ChunksCoverFrom` | db_tools.py:58-66 | All chunks from an index cover the records up to CoveredFrom |
| `DbTools.ChunksCover` | db_tools.py:58-66 | All chunks together are exactly list[0 : CoveredLength(len)] |
| `DbTools.ChunkStep` | db_tools.py:58-66 | While the guard holds, the slice taken at the loop index is the next chunk, and it extends the inserted prefix by exactly that chunk |
| `DbTools.ChunksExhausted` | db_tools.py:58-66 | When the guard fails, every chunk has been taken and the inserted prefix is list[0 : CoveredLength(len)] |
| `DbTools.ShortListInsertsNothing` | db_tools.py:58 | An empty or one-record list yields no chunk |
| `DbTools.LastRecordSkipped` | db_tools.py:58-63 | When len-1 is a multiple of 10000, the chunks cover one record fewer than the list |
| `DbTools.FixedChunksCoverAll` | db_tools.py:58-63 | With the guard `current_index < len`, the chunks cover the whole list, each with 1 to 10000 records |
| `DbTools.PopulateDb` | db_tools.py:40-73 | The store gains exactly list[0 : min(done*10000, len)], with chunks before a failure staying inserted. The error is caught and returned, not raised. With no error, done is the chunk count and the store gains list[0 : CoveredLength(len)]. With an error, it is exactly what inserting the next chunk raises |

## Findings

| source | as written | input that shows it | evidently intended | confidence | as-written member | corrected member |
|---|---|---|---|---|---|---|
| db_tools.py:58 | The loop runs while `current_index < len(station_list) - 1` | A list of 1 record, or of 10001 records: the last record is never inserted | Every record is inserted (guard `current_index < len(station_list)`) | high; not executed | `DbTools.LastRecordSkipped` | `DbTools.FixedChunksCoverAll` |
| lookup.py:111-116 | The row-wise `apply` over a table with no rows returns a frame (its probe call on an empty row raises inside `find_closest`, and the frame is returned instead), and `.tolist()` on a frame raises | A points file with the header `Latitude,Longitude` and no data rows | An empty labelled table with the three result columns | medium; not executed | `Lookup.HeaderOnlyTableFails` | `Lookup.LabelPoints` |

`DbTools.PopulateDb` keeps the guard as written, because it models the program's behaviour.
`DbTools.FixedChunksFrom` is the corrected chunking; `DbTools.FixedChunksCoverAll` proves that it inserts every record.
`Lookup.FindClosestCsv` keeps the program's failure on a table with no rows, through `Lookup.LabelTable`. `Lookup.LabelPoints` is the intended labelling, whose contract covers the zero-row table.

## Left out

- Geodesic distance and rounding: geopy's ellipsoidal distance and `np.round` are abstract function parameters (`Measure`). Only a missing latitude or longitude is modelled as a refinement failure. geopy's own checks, such as a latitude outside [-90, 90] or a non-finite coordinate, are not modelled.
- Floating point: coordinates, planar keys and distances are reals. NaN is not modelled.
- SQL details: the query's meaning is modelled, not its peewee translation. Ties in planar distance, which SQLite leaves unordered, are kept in catalog order (a stable sort). A NULL latitude gives a NULL key, which sorts first.
- The clock: `dt.date.today()` is the `today` parameter.
- File, network and database I/O, each replaced by a parameter or left out:
  - the FTP download (`download_history`);
  - reading the history CSV and renaming its columns: `PopulateDb` takes the record list;
  - reading the points CSV, the input-file existence check and writing the labelled CSV: `FindClosestCsv` takes and returns a table;
  - the database file deletion and connection in `clear_db`;
  - directory creation in config.py;
  - all logging, including the inserted count.
- `refresh_db` and the `__main__` blocks only sequence I/O.
- The import of `INPUT_DIR`/`OUTPUT_DIR`, which config.py does not define, is a packaging defect, not behaviour.
- `Lookup.CalcDistanceActual` returns a new table. The program assigns the column in place on a frame that `select_closest_stations` has just created, which no one else holds.
- `Lookup.FindClosestCsv`: a Latitude or Longitude cell that is not a number makes that row fail (`NonNumericCoordinate`). In the program the failure would arise inside SQLite or geopy. pandas de-duplication of repeated column labels is not modelled, and the table is assumed rectangular, as every data frame is.
- An empty candidate set is refined into an empty table. The model leaves out how pandas `apply` treats an empty frame.
- The lookup reads the catalog as a sequence of rows. Querying a database without a station table is not modelled on the lookup side.
- `DbTools.PopulateDb`: exceptions other than OperationalError and IntegrityError, which would escape the loop, are not modelled. The store raises only those two. OperationalError stands for both a missing table and a statement over the variable limit (11 bound columns per record).
