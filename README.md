# mysql_binlog_stat — a verified model of the statistics engine

`mysql_binlog_stat.py` reads the row events of a MySQL binary log and, per
`schema.table`, counts:

- how many rows were inserted, updated and deleted (`table_dml_count`);
- for every column, how many rows were inserted carrying it (`row_insert_count`);
- for every non-primary-key column, in how many updated rows its value really
  changed (`row_update_count`).

At the end it prints one `{"schema.table": stat}` entry per table, sorted by one
of the three DML counters, largest first.

The project has five modules:

- `Events` (events.dfy) holds the decoded events. It keeps:
  - the type code (30 write, 31 update, 32 delete; any other code is skipped);
  - the schema and table names;
  - the column descriptors (name, primary-key flag);
  - the rows. A row is a value image, or before/after images for an update.
  - Column values have an opaque type with equality.
- `Stats` (stats.dfy) is the specification of the counter store, as pure functions:
  - lazy creation of a schema and of a table record;
  - the table-level counters;
  - the insert column counts;
  - the update diff;
  - one event (`ApplyEvent`) and a whole stream (`Replay`).
- `Aggregator` (aggregator.dfy) is the class `BinlogStat`, the program's
  `MySQLBinlogStat`. It keeps the stream and the nested store as fields. Its
  methods update the store in place, with the same loops and the same
  "create if missing, then add" steps as the program. Each method is proved to
  leave exactly the store that the matching `Stats` function describes.
- `StatProperties` (properties.dfy) proves what the accumulation means:
  - idempotent lazy initialisation, and zero-filled fresh records;
  - primary keys and unchanged values are never counted in the update diff;
  - after any stream, each counter is the sum over the events that name its table;
  - tables that no event names are untouched.
- `Report` (report.dfy) models `iter_table_stat_format` and `print_sort_stat`:
  - flattening the store gives one entry per table;
  - the `by` argument is case-insensitive and selects a counter;
  - the sort is stable and descending. Its result is a permutation, ordered
    non-increasingly, with ties kept in enumeration order;
  - an unknown counter name is an error only when there is at least one entry.

## Model

| member | source | states |
|---|---|---|
| Aggregator.BinlogStat.constructor | mysql_binlog_stat.py:19-20 | the object holds the given stream and an empty store |
| Aggregator.BinlogStat.SchemaExist | mysql_binlog_stat.py:124-127 | true exactly when the lazy schema creation it guards (`EnsureSchema`) would leave the store unchanged |
| Aggregator.BinlogStat.TableExist | mysql_binlog_stat.py:138-141 | true exactly when the lazy table creation it guards (`EnsureTable`) would leave the store unchanged; requires the schema, whose absence raises KeyError in the program |
| Aggregator.BinlogStat.InsertColExist | mysql_binlog_stat.py:153-156 | true exactly when adding 0 to the column's insert counter (`Bump`) would leave the counters unchanged, so the counter need not be created before the add |
| Aggregator.BinlogStat.UpdateColExist | mysql_binlog_stat.py:168-171 | the same for the column's update counter |
| Aggregator.BinlogStat.InitSchemaStatStruct | mysql_binlog_stat.py:56-57 | the store becomes `EnsureSchema` of the old store: an empty table map is added only for a missing schema |
| Aggregator.BinlogStat.InitTableStatStruct | mysql_binlog_stat.py:81-90 | the store becomes `EnsureTable` of the old store: a zeroed record is added only for a missing table |
| Aggregator.BinlogStat.InitInsertColStatStruct | mysql_binlog_stat.py:102 | only this table's record changes, and in it only the insert counter of the column, which becomes 0 |
| Aggregator.BinlogStat.InitUpdateColStatStruct | mysql_binlog_stat.py:114 | only this table's record changes, and in it only the update counter of the column, which becomes 0 |
| Aggregator.BinlogStat.AddInsertCount | mysql_binlog_stat.py:181-182 | the store becomes `AddDml(old, schema, table, Insert, count)`: only the insert counter of this table grows, by `count` |
| Aggregator.BinlogStat.AddUpdateCount | mysql_binlog_stat.py:192-193 | the same for the update counter |
| Aggregator.BinlogStat.AddDeleteCount | mysql_binlog_stat.py:203-204 | the same for the delete counter |
| Aggregator.BinlogStat.AddInsertRowColCount | mysql_binlog_stat.py:216-217 | requires the column counter to exist (the program raises KeyError otherwise); only that counter grows, by `count` |
| Aggregator.BinlogStat.AddUpdateRowColCount | mysql_binlog_stat.py:229-230 | requires the column counter to exist; only that update counter grows, by `count` |
| Aggregator.BinlogStat.InsertRowStat | mysql_binlog_stat.py:242-252 | the store becomes `RowStat(old, schema, table, Insert, len(rows))` |
| Aggregator.BinlogStat.UpdateRowStat | mysql_binlog_stat.py:263-273 | the store becomes `RowStat(old, schema, table, Update, len(rows))` |
| Aggregator.BinlogStat.DeleteRowStat | mysql_binlog_stat.py:284-294 | the store becomes `RowStat(old, schema, table, Delete, len(rows))` |
| Aggregator.BinlogStat.BumpInsertCol | mysql_binlog_stat.py:305-311 | one turn of the column loop: the insert counter of the column ends at its old value (0 if missing) plus `count`, and the rest of the store is unchanged |
| Aggregator.BinlogStat.InsertRowColStat | mysql_binlog_stat.py:299-311 | the column loop leaves exactly `InsertColStat(old, schema, table, columns, len(rows))` |
| Aggregator.BinlogStat.BumpUpdateCol | mysql_binlog_stat.py:330-338 | the update counter of the column ends at its old value (0 if missing) plus 1, and the rest of the store is unchanged |
| Aggregator.BinlogStat.UpdateRowColCounts | mysql_binlog_stat.py:320-338 | the inner loop over the columns of one row leaves the record's update counters as `RowUpdateCounts` of the old ones |
| Aggregator.BinlogStat.UpdateRowColStat | mysql_binlog_stat.py:316-338 | the nested row/column loops leave exactly `UpdateColStat(old, schema, table, columns, rows)` |
| Aggregator.BinlogStat.RunParse | mysql_binlog_stat.py:343-352 | the dispatch loop leaves exactly `Replay(old, stream)`: code 30 does the row and column insert stats, code 31 does the update stats, code 32 does the delete count, and every other code is skipped |
| Events.Classify | mysql_binlog_stat.py:344-352 | the code selects kind `k` iff it is the row-event code of `k` (`Events.Code`: 30, 31, 32), so every other code selects nothing |
| Stats.DmlCount.Add | mysql_binlog_stat.py:173-204 | the counter of kind `k` grows by `n`, and the other two are unchanged |
| Stats.EnsureSchema | mysql_binlog_stat.py:245-246 | the schema key set gains exactly `schema`; an existing schema leaves the store unchanged; a new one maps to no tables |
| Stats.EnsureTable | mysql_binlog_stat.py:248-249 | the table then exists and holds its previous record, or a fresh one; an existing table leaves the store unchanged; every other record and the schema keys are unchanged |
| Stats.AddDml | mysql_binlog_stat.py:173-204 | the counter of kind `k` grows by `n`; the other counters, both column maps and every other record are unchanged |
| Stats.RowStat | mysql_binlog_stat.py:233-294 | after lazy creation, the counter of kind `k` is the previous (or zero) value plus `n`; the schema key set gains exactly `schema`; nothing else in the record or the store changes |
| Stats.InsertColCounts | mysql_binlog_stat.py:303-311 | every column's insert counter grows by `len(rows)` times the number of descriptors with that name; a counter exists afterwards iff it existed before or the name occurs |
| Stats.InsertColStat | mysql_binlog_stat.py:296-311 | as InsertColCounts, for the record; the DML counters, the update counters and every other record are unchanged |
| Stats.RowUpdateCounts | mysql_binlog_stat.py:320-338 | the update counter of `x` grows by the number of non-primary descriptors named `x` whose before and after values differ in the row, and is created only then |
| Stats.UpdateColCounts | mysql_binlog_stat.py:319-338 | the update counter of `x` grows by the changed (row, descriptor) pairs over all rows, and is created only if it already existed or at least one pair changed |
| Stats.UpdateColStat | mysql_binlog_stat.py:313-338 | as UpdateColCounts, for the record; the DML counters, the insert counters and every other record are unchanged |
| Stats.Changed | mysql_binlog_stat.py:321-327 | a column counts as updated in a row iff it is not part of the primary key and its before and after values differ; its consequences are proved in `StatProperties.PrimaryNotChangedInRow`, `StatProperties.NoOpNotCounted` and `StatProperties.ChangedInRowIsDiffers` |
| Stats.ApplyEvent | mysql_binlog_stat.py:344-352 | another code leaves the store unchanged; codes 30/31/32 add exactly the event's schema to the key set, grow their own counter by the number of rows and leave the other two alone; on 30 each insert counter grows by rows times occurrences and exists iff it existed or the name occurs; on 31 each update counter grows by the changed pairs and exists iff it existed or some pair changed; the other column map is unchanged; other tables are untouched |
| Stats.Replay | mysql_binlog_stat.py:343-352 | the store after the dispatch loop has consumed the events in order; nothing is ever removed: the schema keys only grow and every record present before is present after; the counters are characterised by `StatProperties.ReplayDmlCount`, `ReplayInsertCount`, `ReplayUpdateCount`, `ReplayRecords` and `ReplayIsolation` |
| StatProperties.EnsureIdempotent | mysql_binlog_stat.py:56-90 | lazily creating a schema or a table twice is the same as creating it once |
| StatProperties.FreshRecordIsZero | mysql_binlog_stat.py:82-90 | a record created on first sight has the three DML counters at 0 and no column counters |
| StatProperties.PrimaryNotChangedInRow | mysql_binlog_stat.py:321-322 | a name that only primary-key descriptors carry is never counted in a row |
| StatProperties.PrimaryKeyNeverCounted | mysql_binlog_stat.py:321-322 | over any rows, such a name's update counter is neither created nor changed |
| StatProperties.NoOpNotCounted | mysql_binlog_stat.py:325-327 | a column whose before and after values are equal in the row is neither created nor counted |
| StatProperties.NoOccurrenceNotChanged | mysql_binlog_stat.py:320 | a name that no descriptor carries is never counted |
| StatProperties.ChangedInRowIsDiffers | mysql_binlog_stat.py:320-338 | for a non-primary column named once, its count in a row is 1 exactly when its before and after values differ |
| StatProperties.UpdateCountsChangedRows | mysql_binlog_stat.py:319-338 | for a non-primary column named once, the update counter grows by exactly the number of rows in which its value changed, and exists iff it existed or some row changed it |
| StatProperties.ChangedCountIsRowsChanging | mysql_binlog_stat.py:319-338 | for a non-primary column named once, the changed pairs are the rows in which its value changed |
| StatProperties.ReplayRecords | mysql_binlog_stat.py:343-352 | after a stream, a table has a record iff it had one or some write/update/delete event names it |
| StatProperties.ReplayDmlCount | mysql_binlog_stat.py:343-352 | after a stream, each DML counter of a table equals its start value plus the row counts of the events of that kind that name the table |
| StatProperties.ReplayInsertCount | mysql_binlog_stat.py:344-346 | after a stream, a column's insert counter equals its start value plus, over the write events of its table, rows times occurrences of the name |
| StatProperties.ReplayUpdateCount | mysql_binlog_stat.py:347-349 | after a stream, a column's update counter equals its start value plus the changed (row, descriptor) pairs of the update events of its table |
| StatProperties.ReplayIsolation | mysql_binlog_stat.py:343-352 | a table that no write, update or delete event names keeps its record, or its absence; skipped events (any other code) may name it freely |
| Report.TableEntries | mysql_binlog_stat.py:377-379 | one entry per listed table of a schema, in order, each carrying that table's record |
| Report.Flatten | mysql_binlog_stat.py:371-379 | the entries of `iter_table_stat_format`, schema by schema, table by table in the given orders; its properties are in `Report.FlattenSound`, `FlattenIndex`, `FlattenDistinct` and `FlattenEnumerates` |
| Report.FlattenSound | mysql_binlog_stat.py:376-379 | every flattened entry is a listed (schema, table) with its own record |
| Report.FlattenIndex | mysql_binlog_stat.py:376-379 | every listed (schema, table) has an entry |
| Report.FlattenDistinct | mysql_binlog_stat.py:376-379 | with duplicate-free orders, no (schema, table) has two entries |
| Report.FlattenEnumerates | mysql_binlog_stat.py:371-379 | when the orders enumerate the store, the report has exactly one entry per record, carrying that record, and is empty exactly when the store has no record |
| Report.PermutationOnePerRecord | mysql_binlog_stat.py:364-368 | any permutation of a one-entry-per-record list is one too, so sorting keeps the report a listing of the store |
| Report.Entry.Key | mysql_binlog_stat.py:378 | the `"schema.table"` key of an entry: the schema name, a dot, the table name; `Report.KeyInjective` proves it names one (schema, table) when schema names carry no dot |
| Report.KeyInjective | mysql_binlog_stat.py:378 | two entries with the same `"schema.table"` key, whose schema names carry no dot, are the same (schema, table) |
| Report.Lower | mysql_binlog_stat.py:360 | the lowered key has the same length, with each letter lowered |
| Report.ParseSortKey | mysql_binlog_stat.py:360-366 | `by` selects counter `k` iff its lowered form is the key name of `k` |
| Report.ParseSortKeyCaseInsensitive | mysql_binlog_stat.py:360 | lowering `by` first does not change the counter it selects |
| Report.SortValue | mysql_binlog_stat.py:366 | the sort key: the entry's `table_dml_count` counter of the chosen kind; the sort's properties over it are in `Report.SortDescCorrect` |
| Report.InsertDesc | mysql_binlog_stat.py:364-368 | one insertion step of the descending sort: the entry goes before the first entry whose counter is not larger; its properties are `Report.InsertDescTies`, `InsertDescMultiset` and `InsertDescSorted` |
| Report.InsertDescTies | mysql_binlog_stat.py:364-368 | inserting one entry keeps the relative order of entries with equal counters |
| Report.InsertDescMultiset | mysql_binlog_stat.py:364-368 | inserting adds exactly that entry |
| Report.InsertDescSorted | mysql_binlog_stat.py:364-368 | inserting into a non-increasing list keeps it non-increasing |
| Report.SortDesc | mysql_binlog_stat.py:364-368 | `sorted(..., reverse=True)` on one counter, by insertion; its properties are `Report.SortDescCorrect` |
| Report.SortDescCorrect | mysql_binlog_stat.py:364-368 | the descending sort is a permutation of its input, non-increasing in the chosen counter, and stable: the entries with each counter value keep their order |
| Report.SortDescExample | mysql_binlog_stat.py:364-368 | tables with 10, 50 and 5 inserted rows are reported in the order 50, 10, 5 |
| Report.SortStat | mysql_binlog_stat.py:357-368 | with orders that enumerate the store, an error iff the store has a record and `by` names no counter, carrying the lowered key; otherwise exactly one entry per record, a permutation of the flattened store, non-increasing in the counter, with ties in enumeration order |

## Left out

- `main` and `parse_args` are not part of this model. They cover command-line parsing and the connection settings.
- `BinLogStreamReader` and the network are not modelled. The stream is a sequence of already-decoded events, given to the constructor.
- `print_format` (JSON rendering and printing) is not modelled. `Report.SortStat` returns the sorted entries instead of printing them.
- The `stream` and `table_stat_info` property getters and setters are plain field accesses. They are the class fields here.
- The `*_exist` lookups are `reads`-only predicates, so they cannot change the store; their contracts relate each one to the lazy creation it guards.
- KeyError paths become preconditions:
  - the `add_*` helpers require the table or column to exist;
  - `update_row_col_stat` requires every update row to carry before and after values for each non-primary-key column.
- In the program, `_table_stat_info` is a class attribute that all instances share. The model gives each object its own store, starting empty.
- The dict enumeration order in `iter_table_stat_format` is unspecified in Python 2. It is a parameter (`schemaOrder`, `tableOrder`). `Report.SortStat` requires it to enumerate the store (`Report.Enumerates`: every schema and table listed exactly once); the enumeration lemmas about `Report.Flatten` alone also accept partial orders.
- Report.Lower: lowers ASCII letters only; Python's `lower()` on non-ASCII or locale-dependent text is not modelled.
- Python value equality of column values is an abstract equality on an opaque type.
- Integers are unbounded, as Python's are.
- Row events of the older format (codes 23, 24, 25) are ignored by `run_parse`. The model keeps that: they fall under "every other code".
- A column named twice in one event's descriptors is counted once per occurrence, as the loops do. The single-name results in `StatProperties` assume one occurrence.
- A missing before or after value for a non-primary column would be counted as changed under a tolerant reading. The program raises KeyError instead, so the model requires those values to be present.
