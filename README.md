# meow-sql result cursor and paginated table model

This project models two pieces of the meow-sql database client in Dafny and
proves properties of them.

- **The MySQL result-set cursor** (`MySQLQuery`). It runs a statement or takes
  over one of the connection's last raw results. It keeps a list of raw
  result buffers: a replacing execution resets the list, an accumulating
  execution appends to it. It builds the column catalog (name, original
  name, flags, data type, category and a name-to-index map) and reads any
  record of the logical row stream, which is all buffers' rows in
  accumulation order. A seek finds the buffer that holds record `value` by
  keeping a running total of row counts. It turns the record number into a
  buffer-local index with unsigned 64-bit subtraction. It repositions the
  buffer unless the read is sequential (the "fast path"). It fetches the
  row and remembers the byte length of each cell.
- **The paginated table model** (`DataTableModel`). It shows one table or
  view. Rows are loaded through a query-data fetcher into a window that
  grows by `DATA_ROWS_PER_STEP` rows per step, up to `DATA_MAX_ROWS`. The
  header that defines both constants (`db/common.h`) is not part of this
  model; the values used, 1000 and 100000, are assumed. Each load announces
  to observers the rows and columns it added; choosing an entity and
  refreshing first announce the removal of everything shown. The model
  also builds a row-count summary for the status bar.

Files:

- `values.dfy` holds bytes, cells, `Option` and unsigned 64-bit subtraction.
- `row_stream.dfy` holds the specification of the logical row stream
  (`TotalRows`, `Flat`, `Locate`) and its lemmas.
- `mysql_query.dfy` holds the cursor class and scenarios over concrete buffers.
- `data_table_model.dfy` holds the table model class, a paging scenario and
  a failed-load scenario.

The client library is abstracted:

- A result buffer is a field list plus its rows.
- `mysql_data_seek` / `mysql_fetch_row` act on a per-buffer read position
  (`positions`).
- The fetcher's `run` is a parameter. `fetched` is the data set as `run`
  leaves it, or `None` when `run` fails. `FetcherContract` is what the
  model assumes of a successful run.
- Notifications (`beginInsertRows` and the like) are appended to the event
  sequence `notifications`.

Central invariant of the cursor (`Coherent`): while a row is held for an
in-range record, that record's buffer is positioned just after it. Under
this invariant every sequential seek reads the wanted row. `SeekRecNo`
preserves it. A replacing execution establishes it when it fetches a row
(the cursor was not at record 0) or when no row was held. An accumulating
execution keeps it unless a row is held while the current record is at or
past the record count.

Three sequences break the invariant, and each leads the next sequential
seek to skip repositioning and read the wrong row. The second and third
assume that the base class's `seekFirst` is a plain seek to record 0 (see
"Left out" below).

- An end-of-file clamp, then an accumulating execution. The next seek reads
  the first row of the new buffer instead of the wanted one.
  `MySQLScenarios.SeekAfterEofAndAccumulate` shows this on concrete buffers.
- A replacing execution while the cursor is at record 0 with a row held.
  The move to the first record is then a no-op, so the previous buffer's
  row stays held with its lengths zeroed (reading a column yields the empty
  value). The following seek to record 1 reads row 0 of the new buffer.
  `MySQLScenarios.SeekAfterReplaceAtFirstRecord` shows this.
- A replacing execution at record 0 onto an empty result, then an
  accumulating execution. The old row stays held at record 0 of an empty
  stream without any clamp, and the seek to record 1 after the
  accumulation reads row 0 of the appended buffer.
  `MySQLScenarios.SeekAfterEmptyReplaceAndAccumulate` shows this.

All three also rely on every raw result taken being unread (see "Left out"
below).

Notes on the code as written:

- Duplicate column names: each insert into the name index overwrites the
  earlier one, so the LAST column with a given name is the one found.
- `refresh` does not reset the "entity change processed" flag. After the
  first load it is therefore an extension load from offset `rowCount()`,
  not a reload from scratch.
- `setEntity` and `removeData` announce that rows and columns are removed,
  but they do not clear the data set. The old rows stay until the next
  load replaces them.
- A failing fetcher `run` propagates its error before the processed flag is
  set and before anything is announced, so the next unforced load asks
  again.

## Model

| member | source | states |
|---|---|---|
| Values.ULongSub | db/mysql_query.cpp:129-130 | unsigned 64-bit subtraction: exact when no underflow, `2^64 - (b - a)` when it wraps, always below `2^64` |
| RowStream.Flat | db/mysql_query.cpp:123-126 | the logical stream has as many rows as the buffers' row counts add up to |
| RowStream.TotalRowsAppend | db/mysql_query.cpp:45-48 | appending a buffer adds exactly its row count to the record count |
| RowStream.Locate | db/mysql_query.cpp:122-130 | every record below the total lives in one buffer, at a local index below that buffer's row count, after the rows of the buffers before it |
| RowStream.FlatAt | db/mysql_query.cpp:122-137 | row `j` of buffer `k` is record `rows-before-k + j` of the logical stream |
| RowStream.LocateUnique | db/mysql_query.cpp:124-127 | the first buffer at which the running total passes `value` is the one holding `value` |
| RowStream.LocateAppend | db/mysql_query.cpp:45-48 | accumulating a buffer moves no record that was already there |
| RowStream.WantedLocalRecNo | db/mysql_query.cpp:129-130 | once the running total has just passed `value`, neither unsigned subtraction wraps and the result is the local index of `value` |
| MySQL.DataTypeOfField | db/mysql_query.cpp:87-98 | the enum flag wins over the set flag, and both win over the type-code mapping |
| MySQL.LastResult | db/mysql_query.cpp:24-33 | a raw result exists exactly when the connection holds more than the requested index (0 when none is given), and it is the last result at that index |
| MySQL.BuildCatalog | db/mysql_query.cpp:58-80 | one column per field in field order, with name, original name (only from server 40100 on), flags, data type and category; the name index maps each name to the last column carrying it |
| MySQL.RowLengths | db/mysql_query.cpp:143-147 | the remembered length of each cell is the client library's byte length of the cell (0 for NULL) |
| MySQL.MySQLQuery.constructor | db/mysql_query.cpp:8-13 | no buffers, no columns, null row pointer |
| MySQL.MySQLQuery.HasResult | db/mysql_query.cpp:101-104 | true exactly when a buffer is held; with none, the record count is 0 |
| MySQL.MySQLQuery.Execute | db/mysql_query.cpp:20-85 | accumulate mode (only on a non-empty list) appends any buffer and its rows and changes nothing else; replace mode resets the list to the new buffer, rebuilds the catalog and moves to record 0, which from record 0 is a no-op keeping the old row, and onto an empty result from elsewhere an end-of-file clamp; in both of those cases the remembered lengths stay zero; the sequential-read invariant holds after an accumulation unless a row is held at or past the record count, and after a replace that fetches or finds no row held |
| MySQL.MySQLQuery.AppendResult | db/mysql_query.cpp:35-48 | the accumulating half of execute: list, positions and record count grow by the appended buffer; catalog and cursor are unchanged |
| MySQL.MySQLQuery.ReplaceResult | db/mysql_query.cpp:39-84 | the replacing half of execute: the list holds just the new buffer (or nothing), the catalog is that of its fields (or empty), and the cursor is at record 0; unless a first row was fetched the remembered lengths stay zero and the buffer unread |
| MySQL.MySQLQuery.RebuildCatalog | db/mysql_query.cpp:50-80 | the catalog is rebuilt from the single buffer's fields, with one zeroed remembered length per column |
| MySQL.MySQLQuery.SeekFirst | db/mysql_query.cpp:82 | after a replacing execution: a no-op when already at record 0, an end-of-file clamp for an empty buffer that leaves row, lengths and read position alone, otherwise the first row fetched |
| MySQL.MySQLQuery.SeekRecNo | db/mysql_query.cpp:106-156 | a seek to the current record changes nothing; past the end it clamps to the record count and sets EOF; otherwise it fetches the row chosen by the fast-path rule, records the buffer used and its cell lengths; when the fast path is safe the row is record `value` of the logical stream; the sequential-read invariant is preserved |
| MySQL.MySQLQuery.CoherentMakesFastPathSafe | db/mysql_query.cpp:131-135 | under the sequential-read invariant, skipping the reposition reads the wanted row |
| MySQL.MySQLQuery.FindResult | db/mysql_query.cpp:122-130 | the running-total scan stops at the buffer that holds `value` |
| MySQL.MySQLQuery.PositionAt | db/mysql_query.cpp:122-156 | an in-range seek changes only the used buffer's read position, the held row, its lengths and the current record |
| MySQL.MySQLQuery.FetchTarget | db/mysql_query.cpp:126-136 | the buffer and fetch position of an in-range seek; the fetched row is record `value` when the fast path is safe |
| MySQL.MySQLQuery.FetchRow | db/mysql_query.cpp:137-155 | the fetch returns the row at the buffer's position, advances the position by one, copies the cell lengths, and the cursor is at the sought record with EOF cleared |
| MySQL.MySQLQuery.CurRowColumn | db/mysql_query.cpp:158-177 | in range: the cell of the row held cut to exactly its remembered length (the whole cell after a seek fetched the row, nothing after a replace zeroed the lengths; empty for NULL); out of range: the empty value when errors are ignored, else a "column not available" error carrying index, column count and row count |
| MySQL.MySQLQuery.IsNull | db/mysql_query.cpp:179-184 | in range: whether the cell is NULL; out of range: always the error, with no tolerant mode |
| MySQL.MySQLQuery.ThrowOnInvalidColumnIndex | db/mysql_query.cpp:186-194 | fails exactly for indexes at or beyond the column count, with the error that carries no row count |
| MySQLScenarios.SeekAcrossBuffers | db/mysql_query.cpp:122-147 | over two accumulated buffers, record 1 (taken by the fast path) and record 2 (the first row of the second buffer, so repositioned) read the expected rows |
| MySQLScenarios.SeekAfterEofAndAccumulate | db/mysql_query.cpp:112-116 | after an end-of-file clamp and an accumulation, seeking record 3 returns the new buffer's first row, not record 3 |
| MySQLScenarios.AccumulateAfterEof | db/mysql_query.cpp:131-137 | from the clamped state, the appended buffer is read by the fast path from its start instead of at the wanted row |
| MySQLScenarios.SeekAfterEmptyReplaceAndAccumulate | db/mysql_query.cpp:106-110 | a replace at record 0 onto an empty result keeps the old row without a clamp; after an accumulation, seeking record 1 returns the appended buffer's row 0 instead of record 1 |
| MySQLScenarios.AccumulateAfterEmptyReplace | db/mysql_query.cpp:131-137 | from an empty stream at record 0 with a row held, the fast path reads the appended buffer from its start instead of at record 1 |
| MySQLScenarios.SeekAfterReplaceAtFirstRecord | db/mysql_query.cpp:106-110 | a replacing execution at record 0 keeps the previous buffer's row, a column then reads as empty, and seeking record 1 returns the new buffer's row 0 instead of record 1 |
| MySQLScenarios.ReplaceAtFirstRecord | db/mysql_query.cpp:131-137 | from record 0 with a row held, after the replace the fast path reads the new buffer from its start instead of at record 1 |
| TableModel.LoadLimit | models/db/data_table_model.cpp:145-148 | the fetch limit is `wanted - offset`, exact when the window covers the offset and wrapped modulo 2^64 otherwise |
| TableModel.NextWindow | models/db/data_table_model.cpp:217-226 | a step never exceeds the maximum, a reset step gives one step, otherwise the window grows by a step or saturates at the maximum |
| TableModel.GrowthReachesMaximum | models/db/data_table_model.cpp:217-226 | repeated steps from any window add one step each until the maximum, which is then kept; the window never shrinks |
| TableModel.DataTableModel.constructor | models/db/data_table_model.cpp:16-24 | no entity, not processed, empty data, window at the maximum |
| TableModel.DataTableModel.RemoveData | models/db/data_table_model.cpp:107-118 | announces removal of all rows, then all columns, each only when there are any; the data itself is untouched |
| TableModel.DataTableModel.LoadData | models/db/data_table_model.cpp:120-163 | no entity or an unforced reload: nothing happens; otherwise the fetcher is asked from offset 0 (after an entity change) or from the rows already loaded, with limit `wanted - offset`; a failing fetch changes nothing else; a successful one sets the processed flag and announces only the added columns and rows; the loaded rows stay within the window, and the window is full (`IsLimited`) exactly when the fetcher delivered every row it was asked for |
| TableModel.DataTableModel.SetEntity | models/db/data_table_model.cpp:94-105 | announces removal of what was shown, takes the new entity, clears the processed flag and, when asked, does a forced load from offset 0; the flag ends set only when that load succeeded |
| TableModel.DataTableModel.Refresh | models/db/data_table_model.cpp:165-169 | announces removal, then does a forced load that continues after the rows already loaded once the entity was processed; a failing fetch leaves data and flag as they were |
| TableModel.DataTableModel.AllDataLoadedAfterGrowth | models/db/data_table_model.cpp:233-236 | once the window has grown by enough steps to reach the maximum, all data counts as loaded whatever was fetched |
| TableModel.DataTableModel.SetNoRowsCountLimit | models/db/data_table_model.cpp:212-215 | the window is reset to the maximum |
| TableModel.DataTableModel.IncRowsCountForOneStep | models/db/data_table_model.cpp:217-226 | the window becomes the next window of the growth rule |
| TableModel.DataTableModel.RowCountStats | models/db/data_table_model.cpp:171-210 | empty without an entity; otherwise starts with the qualified name; for tables only: the loaded row count when processed and not limited, else the engine's estimate, "approximately" exactly for InnoDB, and "limited to" with the loaded row count exactly when the window is full |
| TableModelScenarios.PagingScenario | models/db/data_table_model.cpp:120-163 | a 2500-row table browsed in steps of 1000 asks for windows at offsets 0, 1000 and 2000, is limited twice and then not, announces one column and three row ranges, and ignores an unforced reload |
| TableModelScenarios.FailedLoadIsRetried | models/db/data_table_model.cpp:126-152 | a first load whose fetch fails leaves the entity unprocessed, so the next unforced load asks again from offset 0 and announces what it loads |

`RowCount` and `ColumnCount` (data_table_model.cpp:26-36) are plain
accessors of the data set's row and column counts; `LoadData`, `RemoveData`
and `RowCountStats` state their effects through them. `IsLimited`
(228-231) and `AllDataLoaded` (233-236) are plain predicates. The meaning
of `IsLimited` is stated through `LoadData` and `RowCountStats`.
`AllDataLoaded` is tied to window growth by `AllDataLoadedAfterGrowth`.

## Left out

- The MySQL C API is abstracted to buffers of rows plus one read position per buffer. Connection handling and running the SQL statement (`connection()->query`) are not modelled: the connection's last results are a parameter.
- MySQL.MySQLQuery.SeekRecNo: requires that the fetched row exists in its buffer and that the buffer has at least as many fields as there are remembered lengths (`FetchInRange`). Past the end of a buffer the source gets a null row and null length data, and an accumulated buffer with fewer fields than the catalog has a length array shorter than the copy loop reads; neither is modelled. Execute appends such a buffer without complaint; only a later seek into it is excluded.
- The base query class is not part of this model. `seekFirst` is taken as a plain seek to record 0, which is a no-op when the cursor is already there; the two misread sequences that start with a replace at record 0 depend on that. The initial current record and EOF flag are constructor parameters.
- The editing-prepared branch of the seek is a constant `false` in the source and is left out, as is `qDebug` logging.
- The driver type-code table (`dataTypeFromMySQLDataType`) and the category table (`categoryOfDataType`) are function parameters.
- Cell text is bytes. UTF-8 decoding into a `QString` is not modelled.
- MySQL.MySQLQuery: `currentResult` is an index into the buffer list, where the source holds a shared pointer. That pointer keeps the last buffer used alive after a replacing execution, which is why the old row stays readable; the model keeps the held row as a value instead.
- MySQL.MySQLQuery.Execute: the record count is an unbounded sum and is not wrapped at 2^64.
- MySQL.MySQLQuery.Execute: every list entry gets its own read position, starting at 0. In the client library the read position belongs to the raw result itself, and taking the same index again yields the same, possibly already read, result. The model assumes every raw result taken is unread and not already held; the misread sequences above rely on that.
- MySQL.MySQLQuery.IsNull: requires a held row with the column, since the source dereferences the row pointer at that index; without one it is not modelled.
- MySQL.MySQLQuery.CurRowColumn: requires a held row with the column and a remembered length within the cell. Without a held row, or with fewer cells than the catalog (an old row kept by a replace), the source reads through a null or short row pointer, which is not modelled.
- The query-data fetcher is a parameter constrained by `FetcherContract`. Its SQL generation and database access are not modelled. A failing `run` is modelled as leaving the data set as it was; what a fetcher changes before it fails is not modelled.
- `data`, `headerData` and `flags` of the table model (display roles and colours) are left out.
- Number formatting and `tr` are represented by `Number` and `Translated` parts of the summary.
- The `int` row and column counts of the Qt model are unbounded naturals.
- Connection management and the UI files are not part of this model.
