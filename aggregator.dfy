/** The statistics engine as the program runs it: one object that owns the
    event stream and the nested counter store, and updates the store in place
    event by event. Every method is proved to compute the function of Stats
    that describes it. */
module Aggregator {
  import opened Events
  import opened Stats

  class BinlogStat<V(==)> {
    /** The decoded events, in the order the replication stream delivers them. */
    var stream: seq<Event<V>>
    /** schema -> table -> statistics of the table. */
    var tableStatInfo: Store

    constructor (stream: seq<Event<V>>)
      ensures this.stream == stream
      ensures tableStatInfo == map[]
    {
      this.stream := stream;
      tableStatInfo := map[];
    }

    // -------------------------------------------------------------------------
    // Lookups

    /** The schema has an entry exactly when creating it lazily would change nothing. */
    predicate SchemaExist(schema: string)
      reads this
      ensures SchemaExist(schema) <==> EnsureSchema(tableStatInfo, schema) == tableStatInfo
    {
      assert schema in EnsureSchema(tableStatInfo, schema);
      schema in tableStatInfo
    }

    /** The table has a record exactly when creating it lazily would change nothing. */
    predicate TableExist(schema: string, table: string)
      reads this
      requires SchemaExist(schema)
      ensures TableExist(schema, table) <==> EnsureTable(tableStatInfo, schema, table) == tableStatInfo
    {
      assert table in EnsureTable(tableStatInfo, schema, table)[schema];
      table in tableStatInfo[schema]
    }

    /** The column has an insert counter exactly when adding nothing to it would
        leave the counters unchanged, that is, when it need not be created first. */
    predicate InsertColExist(schema: string, table: string, col: string)
      reads this
      requires SchemaExist(schema) && TableExist(schema, table)
      ensures InsertColExist(schema, table, col) <==>
        Bump(tableStatInfo[schema][table].rowInsertCount, col, 0) == tableStatInfo[schema][table].rowInsertCount
    {
      assert col in Bump(tableStatInfo[schema][table].rowInsertCount, col, 0);
      col in tableStatInfo[schema][table].rowInsertCount
    }

    /** The same for the update counter of the column. */
    predicate UpdateColExist(schema: string, table: string, col: string)
      reads this
      requires SchemaExist(schema) && TableExist(schema, table)
      ensures UpdateColExist(schema, table, col) <==>
        Bump(tableStatInfo[schema][table].rowUpdateCount, col, 0) == tableStatInfo[schema][table].rowUpdateCount
    {
      assert col in Bump(tableStatInfo[schema][table].rowUpdateCount, col, 0);
      col in tableStatInfo[schema][table].rowUpdateCount
    }

    function Stat(schema: string, table: string): TableStat
      reads this
      requires SchemaExist(schema) && TableExist(schema, table)
    {
      tableStatInfo[schema][table]
    }

    // -------------------------------------------------------------------------
    // Lazy initialisation

    method InitSchemaStatStruct(schema: string)
      modifies this`tableStatInfo
      ensures tableStatInfo == EnsureSchema(old(tableStatInfo), schema)
    {
      if schema !in tableStatInfo {
        tableStatInfo := tableStatInfo[schema := map[]];
      }
    }

    method InitTableStatStruct(schema: string, table: string)
      requires SchemaExist(schema)
      modifies this`tableStatInfo
      ensures tableStatInfo == EnsureTable(old(tableStatInfo), schema, table)
    {
      if table !in tableStatInfo[schema] {
        tableStatInfo := tableStatInfo[schema := tableStatInfo[schema][table := FreshStat]];
      }
    }

    /** Sets the insert counter of `col` to 0, whether or not it existed. */
    method InitInsertColStatStruct(schema: string, table: string, col: string)
      requires SchemaExist(schema) && TableExist(schema, table)
      modifies this`tableStatInfo
      ensures tableStatInfo == WithStat(old(tableStatInfo), schema, table,
        old(Stat(schema, table)).(rowInsertCount := old(Stat(schema, table)).rowInsertCount[col := 0]))
    {
      var stat := tableStatInfo[schema][table];
      tableStatInfo := WithStat(tableStatInfo, schema, table, stat.(rowInsertCount := stat.rowInsertCount[col := 0]));
    }

    /** Sets the update counter of `col` to 0, whether or not it existed. */
    method InitUpdateColStatStruct(schema: string, table: string, col: string)
      requires SchemaExist(schema) && TableExist(schema, table)
      modifies this`tableStatInfo
      ensures tableStatInfo == WithStat(old(tableStatInfo), schema, table,
        old(Stat(schema, table)).(rowUpdateCount := old(Stat(schema, table)).rowUpdateCount[col := 0]))
    {
      var stat := tableStatInfo[schema][table];
      tableStatInfo := WithStat(tableStatInfo, schema, table, stat.(rowUpdateCount := stat.rowUpdateCount[col := 0]));
    }

    // -------------------------------------------------------------------------
    // Counter increments (the key must exist)

    method AddInsertCount(schema: string, table: string, count: nat)
      requires SchemaExist(schema) && TableExist(schema, table)
      modifies this`tableStatInfo
      ensures tableStatInfo == AddDml(old(tableStatInfo), schema, table, Insert, count)
    {
      var stat := tableStatInfo[schema][table];
      tableStatInfo := WithStat(tableStatInfo, schema, table,
        stat.(tableDmlCount := stat.tableDmlCount.(insert := stat.tableDmlCount.insert + count)));
    }

    method AddUpdateCount(schema: string, table: string, count: nat)
      requires SchemaExist(schema) && TableExist(schema, table)
      modifies this`tableStatInfo
      ensures tableStatInfo == AddDml(old(tableStatInfo), schema, table, Update, count)
    {
      var stat := tableStatInfo[schema][table];
      tableStatInfo := WithStat(tableStatInfo, schema, table,
        stat.(tableDmlCount := stat.tableDmlCount.(update := stat.tableDmlCount.update + count)));
    }

    method AddDeleteCount(schema: string, table: string, count: nat)
      requires SchemaExist(schema) && TableExist(schema, table)
      modifies this`tableStatInfo
      ensures tableStatInfo == AddDml(old(tableStatInfo), schema, table, Delete, count)
    {
      var stat := tableStatInfo[schema][table];
      tableStatInfo := WithStat(tableStatInfo, schema, table,
        stat.(tableDmlCount := stat.tableDmlCount.(delete := stat.tableDmlCount.delete + count)));
    }

    method AddInsertRowColCount(schema: string, table: string, col: string, count: nat)
      requires SchemaExist(schema) && TableExist(schema, table) && InsertColExist(schema, table, col)
      modifies this`tableStatInfo
      ensures tableStatInfo == WithStat(old(tableStatInfo), schema, table,
        old(Stat(schema, table)).(rowInsertCount :=
          old(Stat(schema, table)).rowInsertCount[col := old(Stat(schema, table)).rowInsertCount[col] + count]))
    {
      var stat := tableStatInfo[schema][table];
      tableStatInfo := WithStat(tableStatInfo, schema, table,
        stat.(rowInsertCount := stat.rowInsertCount[col := stat.rowInsertCount[col] + count]));
    }

    method AddUpdateRowColCount(schema: string, table: string, col: string, count: nat)
      requires SchemaExist(schema) && TableExist(schema, table) && UpdateColExist(schema, table, col)
      modifies this`tableStatInfo
      ensures tableStatInfo == WithStat(old(tableStatInfo), schema, table,
        old(Stat(schema, table)).(rowUpdateCount :=
          old(Stat(schema, table)).rowUpdateCount[col := old(Stat(schema, table)).rowUpdateCount[col] + count]))
    {
      var stat := tableStatInfo[schema][table];
      tableStatInfo := WithStat(tableStatInfo, schema, table,
        stat.(rowUpdateCount := stat.rowUpdateCount[col := stat.rowUpdateCount[col] + count]));
    }

    // -------------------------------------------------------------------------
    // Per-event statistics

    method InsertRowStat(e: Event<V>)
      modifies this`tableStatInfo
      ensures tableStatInfo == RowStat(old(tableStatInfo), e.schema, e.table, Insert, |e.rows|)
    {
      var schema, table := e.schema, e.table;
      if !SchemaExist(schema) {
        InitSchemaStatStruct(schema);
      }
      if !TableExist(schema, table) {
        InitTableStatStruct(schema, table);
      }
      AddInsertCount(schema, table, |e.rows|);
    }

    method UpdateRowStat(e: Event<V>)
      modifies this`tableStatInfo
      ensures tableStatInfo == RowStat(old(tableStatInfo), e.schema, e.table, Update, |e.rows|)
    {
      var schema, table := e.schema, e.table;
      if !SchemaExist(schema) {
        InitSchemaStatStruct(schema);
      }
      if !TableExist(schema, table) {
        InitTableStatStruct(schema, table);
      }
      AddUpdateCount(schema, table, |e.rows|);
    }

    method DeleteRowStat(e: Event<V>)
      modifies this`tableStatInfo
      ensures tableStatInfo == RowStat(old(tableStatInfo), e.schema, e.table, Delete, |e.rows|)
    {
      var schema, table := e.schema, e.table;
      if !SchemaExist(schema) {
        InitSchemaStatStruct(schema);
      }
      if !TableExist(schema, table) {
        InitTableStatStruct(schema, table);
      }
      AddDeleteCount(schema, table, |e.rows|);
    }

    /** Adds `count` to the insert counter of `col`, creating it at 0 first when missing. */
    method BumpInsertCol(schema: string, table: string, col: string, count: nat)
      requires SchemaExist(schema) && TableExist(schema, table)
      modifies this`tableStatInfo
      ensures tableStatInfo == WithStat(old(tableStatInfo), schema, table,
        old(Stat(schema, table)).(rowInsertCount := Bump(old(Stat(schema, table)).rowInsertCount, col, count)))
    {
      ghost var st0, stat0 := tableStatInfo, tableStatInfo[schema][table];
      ghost var target := stat0.(rowInsertCount := Bump(stat0.rowInsertCount, col, count));
      if !InsertColExist(schema, table, col) {
        assert col !in stat0.rowInsertCount;
        ghost var zeroed := stat0.rowInsertCount[col := 0];
        BumpMissing(stat0.rowInsertCount, col, count);
        InitInsertColStatStruct(schema, table, col);
        AddInsertRowColCount(schema, table, col, count);
        WithStatTwice(st0, schema, table, stat0.(rowInsertCount := zeroed),
          stat0.(rowInsertCount := zeroed[col := zeroed[col] + count]));
        assert tableStatInfo == WithStat(st0, schema, table, target);
      } else {
        assert col in stat0.rowInsertCount;
        BumpPresent(stat0.rowInsertCount, col, count);
        AddInsertRowColCount(schema, table, col, count);
        assert tableStatInfo == WithStat(st0, schema, table, target);
      }
    }

    /** Adds the number of rows to the insert counter of every column of the event. */
    method InsertRowColStat(e: Event<V>)
      requires SchemaExist(e.schema) && TableExist(e.schema, e.table)
      modifies this`tableStatInfo
      ensures tableStatInfo == InsertColStat(old(tableStatInfo), e.schema, e.table, e.columns, |e.rows|)
    {
      var schema, table := e.schema, e.table;
      var rowSize := |e.rows|;
      ghost var st0, stat0 := tableStatInfo, tableStatInfo[schema][table];
      ghost var counts := stat0.rowInsertCount;
      WithStatSelf(st0, schema, table);
      assert e.columns[..0] == [];
      for i := 0 to |e.columns|
        invariant counts == InsertColCounts(stat0.rowInsertCount, e.columns[..i], rowSize)
        invariant tableStatInfo == WithStat(st0, schema, table, stat0.(rowInsertCount := counts))
      {
        var name := e.columns[i].name;
        BumpInsertCol(schema, table, name, rowSize);
        WithStatTwice(st0, schema, table, stat0.(rowInsertCount := counts),
          stat0.(rowInsertCount := Bump(counts, name, rowSize)));
        InsertColCountsStep(stat0.rowInsertCount, e.columns, i, rowSize);
        counts := Bump(counts, name, rowSize);
      }
      assert e.columns[..|e.columns|] == e.columns;
    }

    /** Adds 1 to the update counter of `col`, creating it at 0 first when missing. */
    method BumpUpdateCol(schema: string, table: string, col: string)
      requires SchemaExist(schema) && TableExist(schema, table)
      modifies this`tableStatInfo
      ensures tableStatInfo == WithStat(old(tableStatInfo), schema, table,
        old(Stat(schema, table)).(rowUpdateCount := Bump(old(Stat(schema, table)).rowUpdateCount, col, 1)))
    {
      ghost var st0, stat0 := tableStatInfo, tableStatInfo[schema][table];
      ghost var target := stat0.(rowUpdateCount := Bump(stat0.rowUpdateCount, col, 1));
      if !UpdateColExist(schema, table, col) {
        assert col !in stat0.rowUpdateCount;
        ghost var zeroed := stat0.rowUpdateCount[col := 0];
        BumpMissing(stat0.rowUpdateCount, col, 1);
        InitUpdateColStatStruct(schema, table, col);
        AddUpdateRowColCount(schema, table, col, 1);
        WithStatTwice(st0, schema, table, stat0.(rowUpdateCount := zeroed),
          stat0.(rowUpdateCount := zeroed[col := zeroed[col] + 1]));
        assert tableStatInfo == WithStat(st0, schema, table, target);
      } else {
        assert col in stat0.rowUpdateCount;
        BumpPresent(stat0.rowUpdateCount, col, 1);
        AddUpdateRowColCount(schema, table, col, 1);
        assert tableStatInfo == WithStat(st0, schema, table, target);
      }
    }

    /** The column loop of update_row_col_stat for one row: adds 1 to the
        update counter of every non-primary-key column whose value changed. */
    method UpdateRowColCounts(schema: string, table: string, columns: seq<Column>, row: Row<V>)
      requires SchemaExist(schema) && TableExist(schema, table)
      requires CarriesAll(row, columns)
      modifies this`tableStatInfo
      ensures tableStatInfo == WithStat(old(tableStatInfo), schema, table,
        old(Stat(schema, table)).(rowUpdateCount := RowUpdateCounts(old(Stat(schema, table)).rowUpdateCount, columns, row)))
    {
      ghost var st0, stat0 := tableStatInfo, tableStatInfo[schema][table];
      ghost var counts := stat0.rowUpdateCount;
      WithStatSelf(st0, schema, table);
      assert columns[..0] == [];
      for j := 0 to |columns|
        invariant CarriesAll(row, columns[..j])
        invariant counts == RowUpdateCounts(stat0.rowUpdateCount, columns[..j], row)
        invariant tableStatInfo == WithStat(st0, schema, table, stat0.(rowUpdateCount := counts))
      {
        var column := columns[j];
        RowUpdateCountsStep(stat0.rowUpdateCount, columns, j, row);
        assert Carries(row, column);
        if !column.isPrimary && row.before[column.name] != row.after[column.name] {
          BumpUpdateCol(schema, table, column.name);
          WithStatTwice(st0, schema, table, stat0.(rowUpdateCount := counts),
            stat0.(rowUpdateCount := Bump(counts, column.name, 1)));
          counts := Bump(counts, column.name, 1);
        }
      }
      assert columns[..|columns|] == columns;
    }

    /** For every row and every non-primary-key column whose value changed in
        that row, adds 1 to the update counter of the column. */
    method UpdateRowColStat(e: Event<V>)
      requires SchemaExist(e.schema) && TableExist(e.schema, e.table)
      requires RowsCarryAll(e.rows, e.columns)
      modifies this`tableStatInfo
      ensures tableStatInfo == UpdateColStat(old(tableStatInfo), e.schema, e.table, e.columns, e.rows)
    {
      var schema, table := e.schema, e.table;
      ghost var st0, stat0 := tableStatInfo, tableStatInfo[schema][table];
      WithStatSelf(st0, schema, table);
      assert e.rows[..0] == [];
      for i := 0 to |e.rows|
        invariant RowsCarryAll(e.rows[..i], e.columns)
        invariant tableStatInfo == WithStat(st0, schema, table,
          stat0.(rowUpdateCount := UpdateColCounts(stat0.rowUpdateCount, e.columns, e.rows[..i])))
      {
        UpdateColCountsStep(stat0.rowUpdateCount, e.columns, e.rows, i);
        ghost var cur := UpdateColCounts(stat0.rowUpdateCount, e.columns, e.rows[..i]);
        assert CarriesAll(e.rows[i], e.columns);
        UpdateRowColCounts(schema, table, e.columns, e.rows[i]);
        WithStatTwice(st0, schema, table, stat0.(rowUpdateCount := cur),
          stat0.(rowUpdateCount := RowUpdateCounts(cur, e.columns, e.rows[i])));
      }
      assert e.rows[..|e.rows|] == e.rows;
    }

    // -------------------------------------------------------------------------
    // The dispatch loop

    /** Consumes the stream: write events (code 30) count inserted rows and
        columns, update events (31) count updated rows and changed columns,
        delete events (32) count deleted rows, and every other event is skipped. */
    method RunParse()
      requires AllWellFormed(stream)
      modifies this`tableStatInfo
      ensures tableStatInfo == Replay(old(tableStatInfo), stream)
    {
      for i := 0 to |stream|
        invariant tableStatInfo == Replay(old(tableStatInfo), stream[..i])
      {
        var e := stream[i];
        assert WellFormed(e);
        if e.eventType == WRITE_ROWS_EVENT {
          InsertRowStat(e);
          InsertRowColStat(e);
        } else if e.eventType == UPDATE_ROWS_EVENT {
          UpdateRowStat(e);
          UpdateRowColStat(e);
        } else if e.eventType == DELETE_ROWS_EVENT {
          DeleteRowStat(e);
        }
        assert stream[..i + 1][..i] == stream[..i];
      }
      assert stream[..|stream|] == stream;
    }
  }
}
