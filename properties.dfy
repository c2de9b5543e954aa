/** Properties of the accumulation rules in Stats: lazy initialisation, the
    update diff, and what a whole stream of events leaves in the store. */
module StatProperties {
  import opened Events
  import opened Stats

  // ---------------------------------------------------------------------------
  // Lazy initialisation

  /** Ensuring a schema or a table twice is the same as ensuring it once. */
  lemma EnsureIdempotent(st: Store, schema: string, table: string)
    ensures EnsureSchema(EnsureSchema(st, schema), schema) == EnsureSchema(st, schema)
    ensures var s1 := EnsureSchema(st, schema);
            EnsureTable(EnsureTable(s1, schema, table), schema, table) == EnsureTable(s1, schema, table)
  {
  }

  /** A record created on first sight has every counter at zero and no column counters. */
  lemma FreshRecordIsZero(st: Store, schema: string, table: string)
    requires !HasTable(st, schema, table)
    ensures var r := EnsureTable(EnsureSchema(st, schema), schema, table);
            r[schema][table].tableDmlCount == DmlCount(0, 0, 0) &&
            r[schema][table].rowInsertCount == map[] &&
            r[schema][table].rowUpdateCount == map[]
  {
  }

  // ---------------------------------------------------------------------------
  // The update diff

  /** A column name that no descriptor carries, or that only primary-key
      descriptors carry, is never counted in a row. */
  lemma {:induction false} PrimaryNotChangedInRow<V>(columns: seq<Column>, row: Row<V>, x: string)
    requires CarriesAll(row, columns)
    requires forall j :: 0 <= j < |columns| && columns[j].name == x ==> columns[j].isPrimary
    ensures ChangedInRow(columns, row, x) == 0
  {
    if columns != [] {
      PrimaryNotChangedInRow(columns[..|columns| - 1], row, x);
    }
  }

  /** Primary-key columns never gain or change an update counter. */
  lemma {:induction false} PrimaryKeyNeverCounted<V>(m: Counts, columns: seq<Column>, rows: seq<Row<V>>, x: string)
    requires RowsCarryAll(rows, columns)
    requires forall j :: 0 <= j < |columns| && columns[j].name == x ==> columns[j].isPrimary
    ensures ChangedCount(rows, columns, x) == 0
    ensures x in UpdateColCounts(m, columns, rows) <==> x in m
    ensures Get(UpdateColCounts(m, columns, rows), x) == Get(m, x)
  {
    if rows != [] {
      PrimaryKeyNeverCounted(m, columns, rows[..|rows| - 1], x);
      PrimaryNotChangedInRow(columns, rows[|rows| - 1], x);
    }
  }

  /** A column whose before-value equals its after-value in a row is not
      counted for that row: the row leaves its update counter as it was. */
  lemma {:induction false} NoOpNotCounted<V>(m: Counts, columns: seq<Column>, row: Row<V>, x: string)
    requires CarriesAll(row, columns)
    requires row.Change? && x in row.before && x in row.after && row.before[x] == row.after[x]
    ensures ChangedInRow(columns, row, x) == 0
    ensures x in RowUpdateCounts(m, columns, row) <==> x in m
    ensures Get(RowUpdateCounts(m, columns, row), x) == Get(m, x)
  {
    if columns != [] {
      NoOpNotCounted(m, columns[..|columns| - 1], row, x);
    }
  }

  lemma {:induction false} NoOccurrenceNotChanged<V>(columns: seq<Column>, row: Row<V>, x: string)
    requires CarriesAll(row, columns)
    requires Occurrences(columns, x) == 0
    ensures ChangedInRow(columns, row, x) == 0
  {
    if columns != [] {
      NoOccurrenceNotChanged(columns[..|columns| - 1], row, x);
    }
  }

  lemma {:induction false} OccurrenceCounted(columns: seq<Column>, j: nat, x: string)
    requires j < |columns| && columns[j].name == x
    ensures Occurrences(columns, x) >= 1
  {
    if j < |columns| - 1 {
      OccurrenceCounted(columns[..|columns| - 1], j, x);
    }
  }

  /** Whether the value of column `x` differs between the images of `row`. */
  function Differs<V(==)>(row: Row<V>, x: string): nat
    requires row.Change? && x in row.before && x in row.after
  {
    if row.before[x] != row.after[x] then 1 else 0
  }

  /** When exactly one descriptor, a non-primary-key one, is named `x`, a row
      counts for `x` exactly when the value of `x` differs between its images. */
  lemma {:induction false} ChangedInRowIsDiffers<V>(columns: seq<Column>, row: Row<V>, j: nat, x: string)
    requires CarriesAll(row, columns)
    requires j < |columns| && columns[j].name == x && !columns[j].isPrimary
    requires Occurrences(columns, x) == 1
    ensures x in row.before && x in row.after
    ensures ChangedInRow(columns, row, x) == Differs(row, x)
  {
    assert Carries(row, columns[j]);
    var prefix := columns[..|columns| - 1];
    if j == |columns| - 1 {
      NoOccurrenceNotChanged(prefix, row, x);
    } else {
      assert prefix[j] == columns[j];
      OccurrenceCounted(prefix, j, x);
      ChangedInRowIsDiffers(prefix, row, j, x);
    }
  }

  /** How many rows change the value of column `x`. */
  function RowsChanging<V(==)>(rows: seq<Row<V>>, x: string): nat
    requires forall i :: 0 <= i < |rows| ==> rows[i].Change? && x in rows[i].before && x in rows[i].after
  {
    if rows == [] then 0
    else RowsChanging(rows[..|rows| - 1], x) + Differs(rows[|rows| - 1], x)
  }

  /** For a table whose column names are unique, the update counter of a
      non-primary-key column grows by exactly the number of rows in which its
      value changed; no counter is created when no row changed it. */
  lemma {:induction false} UpdateCountsChangedRows<V>(m: Counts, columns: seq<Column>, rows: seq<Row<V>>, j: nat)
    requires RowsCarryAll(rows, columns)
    requires j < |columns| && !columns[j].isPrimary && Occurrences(columns, columns[j].name) == 1
    ensures forall i :: 0 <= i < |rows| ==>
      rows[i].Change? && columns[j].name in rows[i].before && columns[j].name in rows[i].after
    ensures Get(UpdateColCounts(m, columns, rows), columns[j].name) == Get(m, columns[j].name) + RowsChanging(rows, columns[j].name)
    ensures columns[j].name in UpdateColCounts(m, columns, rows) <==>
      columns[j].name in m || RowsChanging(rows, columns[j].name) > 0
  {
    var x := columns[j].name;
    forall i | 0 <= i < |rows|
      ensures rows[i].Change? && x in rows[i].before && x in rows[i].after
    {
      assert CarriesAll(rows[i], columns);
      assert Carries(rows[i], columns[j]);
    }
    ChangedCountIsRowsChanging(columns, rows, j);
  }

  lemma {:induction false} ChangedCountIsRowsChanging<V>(columns: seq<Column>, rows: seq<Row<V>>, j: nat)
    requires RowsCarryAll(rows, columns)
    requires j < |columns| && !columns[j].isPrimary && Occurrences(columns, columns[j].name) == 1
    requires forall i :: 0 <= i < |rows| ==>
      rows[i].Change? && columns[j].name in rows[i].before && columns[j].name in rows[i].after
    ensures ChangedCount(rows, columns, columns[j].name) == RowsChanging(rows, columns[j].name)
  {
    if rows != [] {
      var prefix := rows[..|rows| - 1];
      ChangedCountIsRowsChanging(columns, prefix, j);
      ChangedInRowIsDiffers(columns, rows[|rows| - 1], j, columns[j].name);
    }
  }

  // ---------------------------------------------------------------------------
  // Whole streams

  /** The event counts rows of kind `k` for (schema, table). */
  predicate Targets<V>(e: Event<V>, schema: string, table: string, k: DmlKind)
  {
    Classify(e.eventType) == Some(k) && e.schema == schema && e.table == table
  }

  /** Some event of the stream is a row event on (schema, table). */
  ghost predicate Seen<V>(events: seq<Event<V>>, schema: string, table: string)
  {
    exists i :: 0 <= i < |events| && Classify(events[i].eventType).Some? &&
      events[i].schema == schema && events[i].table == table
  }

  /** Rows of kind `k` the stream carries for (schema, table). */
  function RowsOf<V>(events: seq<Event<V>>, schema: string, table: string, k: DmlKind): nat
  {
    if events == [] then 0
    else
      var e := events[|events| - 1];
      RowsOf(events[..|events| - 1], schema, table, k) + (if Targets(e, schema, table, k) then |e.rows| else 0)
  }

  /** Inserted rows that carry column `x` for (schema, table). */
  function InsertedOf<V>(events: seq<Event<V>>, schema: string, table: string, x: string): nat
  {
    if events == [] then 0
    else
      var e := events[|events| - 1];
      InsertedOf(events[..|events| - 1], schema, table, x) +
        (if Targets(e, schema, table, Insert) then |e.rows| * Occurrences(e.columns, x) else 0)
  }

  /** Updated rows in which column `x` changed, for (schema, table). */
  function UpdatedOf<V(==)>(events: seq<Event<V>>, schema: string, table: string, x: string): nat
    requires AllWellFormed(events)
  {
    if events == [] then 0
    else
      var e := events[|events| - 1];
      UpdatedOf(events[..|events| - 1], schema, table, x) +
        (if Targets(e, schema, table, Update) then ChangedCount(e.rows, e.columns, x) else 0)
  }

  /** Records are created on first sight and never removed: after a stream, a
      table has a record exactly when it had one before or some row event of
      the stream was about it. */
  lemma {:induction false} ReplayRecords<V>(st: Store, events: seq<Event<V>>, schema: string, table: string)
    requires AllWellFormed(events)
    ensures HasTable(Replay(st, events), schema, table) <==> HasTable(st, schema, table) || Seen(events, schema, table)
  {
    if events != [] {
      var prefix, e := events[..|events| - 1], events[|events| - 1];
      assert AllWellFormed(prefix) by {
        forall i | 0 <= i < |prefix| ensures WellFormed(prefix[i]) { assert prefix[i] == events[i]; }
      }
      ReplayRecords(st, prefix, schema, table);
      SeenStep(events, schema, table);
    }
  }

  lemma SeenStep<V>(events: seq<Event<V>>, schema: string, table: string)
    requires events != []
    ensures Seen(events, schema, table) <==>
      Seen(events[..|events| - 1], schema, table) ||
      (Classify(events[|events| - 1].eventType).Some? &&
       events[|events| - 1].schema == schema && events[|events| - 1].table == table)
  {
    var prefix := events[..|events| - 1];
    if Seen(events, schema, table) {
      var i :| 0 <= i < |events| && Classify(events[i].eventType).Some? &&
        events[i].schema == schema && events[i].table == table;
      if i < |events| - 1 {
        assert prefix[i] == events[i];
      }
    }
    if Seen(prefix, schema, table) {
      var i :| 0 <= i < |prefix| && Classify(prefix[i].eventType).Some? &&
        prefix[i].schema == schema && prefix[i].table == table;
      assert events[i] == prefix[i];
    }
  }

  /** The record of (schema, table) is the same in both stores, when it does
      not exist in either or is the same record. */
  lemma LookupAgrees(st: Store, r: Store, s0: string, t0: string, schema: string, table: string)
    requires AgreeElsewhere(st, r, s0, t0)
    requires schema != s0 || table != t0
    ensures HasTable(r, schema, table) <==> HasTable(st, schema, table)
    ensures Lookup(r, schema, table) == Lookup(st, schema, table)
  {
  }

  /** The replay of a stream counts, per table and DML kind, exactly the rows of
      that kind the stream carries for it. */
  lemma {:induction false} ReplayDmlCount<V>(st: Store, events: seq<Event<V>>, schema: string, table: string, k: DmlKind)
    requires AllWellFormed(events)
    ensures Lookup(Replay(st, events), schema, table).tableDmlCount.Of(k) ==
      Lookup(st, schema, table).tableDmlCount.Of(k) + RowsOf(events, schema, table, k)
  {
    if events != [] {
      var prefix, e := events[..|events| - 1], events[|events| - 1];
      assert AllWellFormed(prefix) by {
        forall i | 0 <= i < |prefix| ensures WellFormed(prefix[i]) { assert prefix[i] == events[i]; }
      }
      ReplayDmlCount(st, prefix, schema, table, k);
      var p := Replay(st, prefix);
      if Classify(e.eventType).Some? && (e.schema != schema || e.table != table) {
        LookupAgrees(p, ApplyEvent(p, e), e.schema, e.table, schema, table);
      }
    }
  }

  /** The replay of a stream adds to the insert counter of column `x` exactly
      the rows of the insert events on the table, once per descriptor named `x`. */
  lemma {:induction false} ReplayInsertCount<V>(st: Store, events: seq<Event<V>>, schema: string, table: string, x: string)
    requires AllWellFormed(events)
    ensures Get(Lookup(Replay(st, events), schema, table).rowInsertCount, x) ==
      Get(Lookup(st, schema, table).rowInsertCount, x) + InsertedOf(events, schema, table, x)
  {
    if events != [] {
      var prefix, e := events[..|events| - 1], events[|events| - 1];
      assert AllWellFormed(prefix) by {
        forall i | 0 <= i < |prefix| ensures WellFormed(prefix[i]) { assert prefix[i] == events[i]; }
      }
      ReplayInsertCount(st, prefix, schema, table, x);
      var p := Replay(st, prefix);
      if Classify(e.eventType).Some? && (e.schema != schema || e.table != table) {
        LookupAgrees(p, ApplyEvent(p, e), e.schema, e.table, schema, table);
      }
    }
  }

  /** The replay of a stream adds to the update counter of column `x` exactly
      the update rows on the table in which a non-primary-key column `x` changed. */
  lemma {:induction false} ReplayUpdateCount<V>(st: Store, events: seq<Event<V>>, schema: string, table: string, x: string)
    requires AllWellFormed(events)
    ensures Get(Lookup(Replay(st, events), schema, table).rowUpdateCount, x) ==
      Get(Lookup(st, schema, table).rowUpdateCount, x) + UpdatedOf(events, schema, table, x)
  {
    if events != [] {
      var prefix, e := events[..|events| - 1], events[|events| - 1];
      assert AllWellFormed(prefix) by {
        forall i | 0 <= i < |prefix| ensures WellFormed(prefix[i]) { assert prefix[i] == events[i]; }
      }
      ReplayUpdateCount(st, prefix, schema, table, x);
      var p := Replay(st, prefix);
      if Classify(e.eventType).Some? && (e.schema != schema || e.table != table) {
        LookupAgrees(p, ApplyEvent(p, e), e.schema, e.table, schema, table);
      }
    }
  }

  /** Events about other tables, and skipped events (codes other than 30, 31
      and 32) about any table, never touch a table's record, even when the
      table name is the same in another schema. */
  lemma {:induction false} ReplayIsolation<V>(st: Store, events: seq<Event<V>>, schema: string, table: string)
    requires AllWellFormed(events)
    requires forall i :: 0 <= i < |events| && Classify(events[i].eventType).Some? ==>
      events[i].schema != schema || events[i].table != table
    ensures HasTable(Replay(st, events), schema, table) <==> HasTable(st, schema, table)
    ensures Lookup(Replay(st, events), schema, table) == Lookup(st, schema, table)
  {
    if events != [] {
      var prefix, e := events[..|events| - 1], events[|events| - 1];
      assert AllWellFormed(prefix) by {
        forall i | 0 <= i < |prefix| ensures WellFormed(prefix[i]) { assert prefix[i] == events[i]; }
      }
      assert forall i :: 0 <= i < |prefix| ==> prefix[i] == events[i];
      ReplayIsolation(st, prefix, schema, table);
      var p := Replay(st, prefix);
      if Classify(e.eventType).Some? {
        LookupAgrees(p, ApplyEvent(p, e), e.schema, e.table, schema, table);
      }
    }
  }
}
