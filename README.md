# market-data-service ETL core, modelled in Dafny

The service builds a daily OHLCV (open, high, low, close, volume) price table in three steps:

- **Extract** (`fetch_data`) asks the Alpha Vantage API for each ticker's daily series. It skips a ticker whose reply carries an "Error Message", has no series, or whose request fails. It abandons the remaining tickers on a rate-limit "Note". It tags each good series with its symbol and concatenates the frames.
- **Transform** (`transform`):
  - renames the API's columns;
  - coerces the five numeric columns (text that does not parse becomes missing);
  - keeps rows at or after a cutoff `k_days` before now, then selects the seven canonical columns;
  - when any value is missing, sorts by (symbol, timestamp) and applies `ffill().bfill()`;
  - when any numeric value is `<= 0`, drops the rows whose open, high, low or close is not positive;
  - casts volume to an integer.
- **Load** writes the rows into the DuckDB table `ohlcv_data`, which has `UNIQUE(symbol, timestamp)`. There are two loaders:
  - `load_to_duckdb` issues one `INSERT ... SELECT ... ON CONFLICT DO NOTHING` for the whole batch;
  - the `load_initial.py` script issues one `INSERT ... VALUES ... ON CONFLICT DO NOTHING` per CSV row.

Modules and files:

| file | module | what it holds |
|---|---|---|
| `wrappers.dfy` | `Wrappers` | `Option` and `Result` |
| `table.dfy` | `Table` | The table as a map from key `(symbol, timestamp)` to row. The bulk insert-or-ignore (`InsertOrIgnoreAll`) and the row-by-row fold (`InsertEach`), with their properties. |
| `load.dfy` | `Load` | The database as a class: whether the table exists, and its contents. `load_to_duckdb` as a method. |
| `load_initial.dfy` | `LoadInitial` | The row-by-row loader as a method with a loop. |
| `frame.dfy` | `Frame` | Rows of the price frame. Each numeric cell is text, a number, or missing. |
| `ordering.dfy` | `Ordering` | `sort_values(by=['symbol', 'timestamp'])` |
| `fill.dfy` | `Fill` | `ffill().bfill()`, column by column |
| `transform.dfy` | `Transform` | Rename and select on the header, the coercion loop, the filters, and the whole `transform` |
| `extract.dfy` | `Extract` | The per-ticker loop of `fetch_data` |

Failures of the outside world are parameters of the model:

- a file that cannot be read is an `Option` input that is `None`;
- a database that does not open is `connects == false`;
- each HTTP reply is an abstract `Response`;
- the current time minus `k_days` is the `cutoff`;
- `pd.to_numeric` on one string is a `parse` function.

A row the database refuses (wrong arity or type) is a `Staged` value `None`.

The fill is not grouped by symbol: it fills down each column over the whole sorted frame, and `Fill.FillCrossesSymbols` proves that a value is carried across a symbol boundary.

## Model

| member | source | states |
|---|---|---|
| Table.InsertOrIgnore | src/etl/load_initial.py:21-25 | Definition of one INSERT ... VALUES ... ON CONFLICT DO NOTHING: a key already present keeps its row, otherwise the row is added. Its relation to the bulk statement is Table.InsertOrIgnoreAllSingle. |
| Table.InsertOrIgnoreAll | src/etl/load.py:63-68 | Definition of the bulk INSERT ... SELECT ... ON CONFLICT DO NOTHING: old keys keep their rows, each new batch key gets the first batch row with that key. Its properties are the Table.InsertOrIgnoreAll* lemmas. |
| Table.InsertEach | src/etl/load_initial.py:45-46 | Definition of the row loop: InsertOrIgnore applied to each row in CSV order. Table.InsertEachIsInsertOrIgnoreAll proves it equal to the bulk statement. |
| Table.WellKeyedIsUnique | src/etl/load.py:44-55 | With the UNIQUE(symbol, timestamp) constraint, no two stored rows share a key. |
| Table.InsertOrIgnoreAllWellKeyed | src/etl/load.py:63-68 | After the bulk insert, every row still sits under its own key and keys stay unique. |
| Table.InsertOrIgnoreAllKeepsExisting | src/etl/load.py:60-68 | ON CONFLICT DO NOTHING: a row already in the table keeps its values after the bulk insert. |
| Table.InsertOrIgnoreAllAddsNew | src/etl/load.py:63-68 | Every batch row whose key is absent from the table is in the table afterwards, unchanged (when the batch's keys are distinct). |
| Table.InsertOrIgnoreAllKeys | src/etl/load.py:63-68 | Afterwards the keys are exactly the old keys plus the batch's keys. The table grows by at most the batch size. |
| Table.InsertOrIgnoreAllIdempotent | src/etl/load.py:60-68 | Loading the same batch again leaves the table unchanged, so reruns add no duplicates. |
| Table.InsertOrIgnoreAllConcat | src/etl/load.py:60-68 | Loading b1 and then b2 gives the same table as loading b1 + b2 at once (incremental loads compose). |
| Table.InsertOrIgnoreAllSingle | src/etl/load_initial.py:21-25 | A bulk insert of one row is exactly one INSERT ... VALUES ... ON CONFLICT DO NOTHING. |
| Table.InsertEachIsInsertOrIgnoreAll | src/etl/load_initial.py:44-46 | For every batch, inserting row by row in order gives the same table as the one bulk statement. |
| Table.InsertEachKeepsFirstOccurrence | src/etl/load_initial.py:44-46 | When a key repeats in the CSV, the row-by-row loader keeps the first row with that key. |
| Load.Database.constructor | src/etl/load.py:42 | A new database file has no ohlcv_data table and no rows. |
| Load.Database.CreateTableIfNotExists | src/etl/load.py:44-55 | Afterwards the table exists, and an existing table keeps every row. |
| Load.Database.InsertSelectIgnoringConflicts | src/etl/load.py:63-68 | Succeeds exactly when the table exists and every staged row fits; then the table is the bulk insert-or-ignore result; otherwise nothing changes. |
| Load.Database.InsertValuesIgnoringConflict | src/etl/load_initial.py:21-25 | Succeeds exactly when the table exists and the row fits; then the table is the single insert-or-ignore result; otherwise nothing changes. |
| Load.LoadToDuckDB | src/etl/load.py:19-80 | Each outcome and its effect on the database. A read failure, an empty batch or a failed connection leaves the database unchanged. Otherwise the table exists afterwards. A batch that fits is inserted as a whole and reports its record count. A batch with a bad row fails and changes no row. |
| Load.OverlappingRuns | src/etl/load.py:60-68 | Over overlapping runs, a repeated run adds nothing. A conflicting row does not overwrite the first write. New keys are added. |
| LoadInitial.FirstMalformed | src/etl/load_initial.py:45-46 | Gives the index of the first row the database refuses (or the row count). Every row before it fits. |
| LoadInitial.LoadRowByRow | src/etl/load_initial.py:13-63 | A failed connection changes nothing. Otherwise the table exists, and the rows before the first refused row have been inserted one by one. The result reports where the loop stopped, or the full count when every row was inserted. |
| LoadInitial.RowByRowMatchesBulk | src/etl/load_initial.py:44-46 | On a CSV whose rows all fit, the row-by-row loader leaves the same table as the bulk load. |
| Ordering.StrLeTotal | src/etl/transform.py:71 | Any two symbols are comparable. |
| Ordering.StrLeAntisymmetric | src/etl/transform.py:71 | Two symbols that each sort before the other are equal. |
| Ordering.StrLeTransitive | src/etl/transform.py:71 | Symbol order is transitive. |
| Ordering.KeyLeTotal | src/etl/transform.py:71 | The (symbol, timestamp) order is total. |
| Ordering.KeyLeTransitive | src/etl/transform.py:71 | The (symbol, timestamp) order is transitive. |
| Ordering.SortByKey | src/etl/transform.py:71 | The sorted rows are a permutation of the input and are ordered by (symbol, timestamp). |
| Ordering.SortKeepsLength | src/etl/transform.py:71 | Sorting keeps the row count. |
| Ordering.InsertByKeySpec | src/etl/transform.py:71 | Inserting a row into a sorted sequence adds exactly that row and keeps the sequence sorted. |
| Ordering.SortByKeyStable | src/etl/transform.py:71 | The sort on two columns is stable: for every (symbol, timestamp), the rows with that key appear in the output in their input order. |
| Fill.ForwardFill | src/etl/transform.py:72 | Definition of ffill on one column, carrying the last present value downwards. Its meaning is Fill.ForwardFillSpec and Fill.ForwardFillCarries. |
| Fill.BackFill | src/etl/transform.py:72 | Definition of bfill on one column, carrying the next present value upwards. Its meaning is Fill.BackFillSpec and Fill.BackFillCarries. |
| Fill.FillCells | src/etl/transform.py:72 | Definition of ffill followed by bfill on one column; Fill.FillCellsSpec states what it keeps and what it repairs. |
| Fill.FillFrame | src/etl/transform.py:72 | Definition of df.ffill().bfill() as the one-column fill applied to each numeric column; Fill.FillFrameColumn and Fill.FillColumnsSpec state its effect. |
| Fill.ForwardFillSpec | src/etl/transform.py:72 | ffill keeps the length and every present cell. A cell stays missing exactly when it and every cell above it are missing. |
| Fill.BackFillSpec | src/etl/transform.py:72 | bfill keeps the length and every present cell. A cell stays missing exactly when it and every cell below it are missing. |
| Fill.ForwardFillCarries | src/etl/transform.py:72 | After ffill, a missing cell equals the filled cell just above it. |
| Fill.BackFillCarries | src/etl/transform.py:72 | After bfill, a missing cell equals the filled cell just below it. |
| Fill.FillCellsSpec | src/etl/transform.py:72 | ffill then bfill keeps every present cell. A cell stays missing exactly when the whole column is missing. |
| Fill.FillColumnsSpec | src/etl/transform.py:72 | Filling columns keeps the row count, the timestamps and symbols, and every present value. A filled column that has any value has no missing cell left. |
| Fill.FillFrameKeepsRows | src/etl/transform.py:72 | The frame fill keeps the rows, their order, timestamps and symbols. |
| Fill.FillFrameColumn | src/etl/transform.py:72 | After the frame fill, each numeric column is exactly that column's own ffill-then-bfill. |
| Fill.FillCrossesSymbols | src/etl/transform.py:71-72 | The fill ignores symbols: a missing cell takes the value on the row above, even when that row belongs to another symbol. |
| Transform.CanonicalName | src/etl/transform.py:41-48 | Definition of the rename dictionary: the six API names map to their canonical names, every other name is kept. |
| Transform.ResetAndRename | src/etl/transform.py:40-48 | The index becomes the first column, "timestamp", and every other column name goes through the rename dictionary. |
| Transform.SelectColumns | src/etl/transform.py:64-65 | df[final_columns] succeeds exactly when every wanted column is present. It then picks, in order, a column with each wanted name. |
| Transform.FetchedFrameSelectsFinalColumns | src/etl/transform.py:40-65 | A frame as fetched from the API yields exactly the seven canonical columns, in order. |
| Transform.ToNumeric | src/etl/transform.py:55 | Definition of pd.to_numeric(errors='coerce') on one cell: text that parses becomes its number, text that does not becomes missing, other cells stay. Transform.CoerceRowIsNumeric states the result holds no text. |
| Transform.CoerceRow | src/etl/transform.py:55 | Definition of a row with all five numeric cells coerced; Transform.CoerceNumericColumns proves the loop produces it. |
| Transform.CoerceColumn | src/etl/transform.py:55 | One assignment df[col] = pd.to_numeric(df[col]): every row gets that cell coerced, and the row count is kept. |
| Transform.CoerceNumericColumns | src/etl/transform.py:53-55 | The loop over numeric_cols leaves every row with all five numeric cells coerced, and the row count unchanged. |
| Transform.CoerceAllFields | src/etl/transform.py:53-55 | Coercing the columns one by one, in numeric_cols order, gives the row coerced in all fields. |
| Transform.CoerceFieldsGet | src/etl/transform.py:54-55 | Coercing a list of fields coerces exactly the listed fields and leaves the others, the timestamp and the symbol as they were. |
| Transform.CoerceRowIsNumeric | src/etl/transform.py:55 | After coercion no numeric cell holds text. A cell that was already a number or missing is unchanged. |
| Transform.Where | src/etl/transform.py:60 | A boolean mask keeps exactly the rows that satisfy it and keeps no others. |
| Transform.WhereConcat | src/etl/transform.py:60 | Masking keeps the rows' relative order: it distributes over concatenation. |
| Transform.WhereAllKept | src/etl/transform.py:60 | A mask every row satisfies drops nothing. |
| Transform.KeepSince | src/etl/transform.py:60 | Definition of df[df['timestamp'] >= cutoff] as a mask; Transform.KeepSinceSpec and Transform.WhereConcat state its effect. |
| Transform.KeepSinceSpec | src/etl/transform.py:59-60 | The time filter keeps exactly the rows at or after the cutoff (order is kept by Transform.WhereConcat). |
| Transform.DropNonPositive | src/etl/transform.py:76-78 | Definition of the outlier step: when any numeric value is <= 0, keep the rows with four positive prices; otherwise keep all rows. Transform.DropNonPositiveSpec states its effect. |
| Transform.DropNonPositiveSpec | src/etl/transform.py:76-78 | When some value is <= 0, only rows with all four prices > 0 remain. Every such row is kept. Without a value <= 0 the frame is unchanged. |
| Transform.NoNonPositivePriceSurvives | src/etl/transform.py:76-78 | No output row has a price <= 0, and a volume <= 0 alone does not drop a row. |
| Transform.DropNonPositiveSubset | src/etl/transform.py:78 | The outlier filter only removes rows. |
| Transform.FillMissing | src/etl/transform.py:69-72 | Definition of the missing-value step: when some cell is missing, sort by (symbol, timestamp) and fill; otherwise leave the frame. Transform.FillMissingSpec states its effect. |
| Transform.FillMissingSpec | src/etl/transform.py:69-72 | Without missing values the frame is untouched, order included. Otherwise the rows are the input sorted by (symbol, timestamp), as a permutation. The fill keeps every present value. A column with a value anywhere has no missing cell left. |
| Transform.FillMissingRespectsCutoff | src/etl/transform.py:60-72 | Sorting and filling introduce no row from before the cutoff. |
| Transform.CastVolume | src/etl/transform.py:81-82 | Definition of df['volume'].astype(int): fails when a volume is still missing, otherwise keeps the rows. |
| Transform.Clean | src/etl/transform.py:59-82 | Definition of the steps after coercion, in source order: time filter, fill, outlier filter, volume cast. Transform.CleanSpec states what a success guarantees. |
| Transform.Pipeline | src/etl/transform.py:23-85 | Definition of the whole transform: read failure, then the column check, then coercion and Clean. Transform.Transform is proved equal to it. |
| Transform.CleanSpec | src/etl/transform.py:59-82 | After a successful clean, every volume is present, every row is at or after the cutoff, and no price is <= 0. |
| Transform.Transform | src/etl/transform.py:23-85 | Runs the steps in order. Read failure, a missing column and a non-castable volume are the error cases; read failure is exactly the None result. On success, the cutoff, positive prices and present volumes hold for every row. |
| Extract.HasKey | src/etl/extract.py:34 | Definition of the truth test `if not AV_API_KEY`: a key is present when it is set and not empty. |
| Extract.Classify | src/etl/extract.py:49-62 | Definition of what one reply does: a failed request, an Error Message or a missing series skips the ticker; otherwise a Note abandons the run; otherwise the series is kept. Error Message is tested before Note. |
| Extract.CrawlTickers | src/etl/extract.py:38-77 | Definition of the per-ticker loop as a recursion: the frames collected and the requests sent. Extract.FetchData is proved equal to it, and the Extract lemmas state its properties. |
| Extract.Concat | src/etl/extract.py:85 | Definition of pd.concat: the rows of the frames, in order. |
| Extract.Tag | src/etl/extract.py:63-64 | One row per series entry, with that entry's date, tagged with the ticker's symbol. |
| Extract.FetchData | src/etl/extract.py:23-86 | Without an API key: None, and no request is sent. Otherwise: one request per ticker until a Note. The result is the concatenation of the good replies' frames, or None when there are none. |
| Extract.AbandonEndsRun | src/etl/extract.py:57-60 | A rate-limit Note on ticker i ends the run: exactly i + 1 requests are sent, and later tickers do not affect the result. |
| Extract.SkipDropsOnlyThatTicker | src/etl/extract.py:49-77 | A skipped ticker (error message, missing series, failed request) removes only that ticker's frame. It costs one request unless the run was already abandoned. |
| Extract.ErrorMessageOutranksNote | src/etl/extract.py:54-60 | A reply that carries both an Error Message and a Note is skipped, not abandoned. |
| Extract.AllGoodKeepsEveryTicker | src/etl/extract.py:38-65 | When every reply is good, every ticker is requested and each one's frame appears, in ticker order. |
| Extract.FramesComeFromGoodReplies | src/etl/extract.py:62-65 | Every collected frame is some ticker's good reply, tagged with that ticker. |

## Left out

- Floating point: prices (DOUBLE) and volumes are integers. NaN is the `Missing` cell, and comparing it with 0 is false.
- Timestamps are integers. `pd.to_datetime` is the identity; a date it cannot parse, which raises, is not modelled.
- Time: `pd.Timestamp.now() - DateOffset(days=k_days)` is the `cutoff` parameter.
- Number parsing: `pd.to_numeric` on one string is the `parse` parameter.
- I/O: reading and writing Parquet and CSV files (`save_raw_data`, `save_processed_data`) is left out. A failed read is an input that is `None`.
- `read_csv` in load_initial.py runs outside the `try`, so its failure ends the script. That failure is not modelled.
- Observability and waiting: logging, `time.perf_counter` throughput figures, `print`, `time.sleep(30)` between requests, and argparse and the `__main__` blocks.
- HTTP and JSON: `requests.get`, `raise_for_status` and `r.json()` are reduced to `Response`. A failed request or any unexpected exception inside the per-ticker `try` is `TransportFailure`. The KeyError for a missing "Time Series (Daily)" is a `Body` whose `series` is `None`. Both skip the ticker. `output_mode` only changes what the API returns, so it is not a parameter.
- src/core/config.py and the ticker list are not part of this model. Tickers, the API key and the table name are inputs or fixed.
- parallel.cpp, random_walk.cpp and threaded.cpp are not part of this model. They are not part of the ETL path.
- Duplicate keys inside one bulk batch: the source does not show which row DuckDB keeps. `Table.InsertOrIgnoreAll` keeps the first occurrence, which matches what the row-by-row path does.
- Sorting: pandas sorts on two columns with a stable lexsort, so rows with equal (symbol, timestamp) keep their input order. The model's insertion sort does the same (Ordering.SortByKeyStable). pandas' sorting algorithm itself is not modelled.
- Transform.Transform: pandas raises the KeyError for a missing numeric column (line 55) before the one for a missing final column (line 65). The model reports both as `MissingColumn`, checked before coercion; nothing observable happens in between.
- Frame rows hold only the seven canonical columns; other columns are tracked only as header names. Duplicate column names are not modelled.
- `pd.concat` of the per-ticker frames is sequence concatenation. The frames' indexes are not modelled.
- Transactions: a DuckDB statement commits on its own, so rows inserted before a failing row in load_initial.py stay. The explicit `commit` and `close` have no further effect in the model.
