/** The counter store of the statistics engine, as values: schema -> table ->
    TableStat, and what each accumulation step does to it. The class in
    aggregator.dfy updates a store of this type in place and is proved to
    compute exactly these functions. */
module Stats {
  import opened Events

  /** Column name -> number of rows. */
  type Counts = map<string, nat>

  /** Rows affected per DML kind. */
  datatype DmlCount = DmlCount(insert: nat, update: nat, delete: nat)
  {
    function Of(k: DmlKind): nat
    {
      match k
      case Insert => insert
      case Update => update
      case Delete => delete
    }

    function Add(k: DmlKind, n: nat): (r: DmlCount)
      ensures r.Of(k) == Of(k) + n
      ensures forall j :: j != k ==> r.Of(j) == Of(j)
    {
      match k
      case Insert => this.(insert := insert + n)
      case Update => this.(update := update + n)
      case Delete => this.(delete := delete + n)
    }
  }

  /** The statistics of one table. */
  datatype TableStat = TableStat(
    tableDmlCount: DmlCount,
    rowInsertCount: Counts,
    rowUpdateCount: Counts)

  /** The record a table gets on first sight. */
  const FreshStat := TableStat(DmlCount(0, 0, 0), map[], map[])

  type Store = map<string, map<string, TableStat>>

  predicate HasTable(st: Store, schema: string, table: string)
  {
    schema in st && table in st[schema]
  }

  /** The record of a table, or the fresh one when it has none yet. */
  function Lookup(st: Store, schema: string, table: string): TableStat
  {
    if HasTable(st, schema, table) then st[schema][table] else FreshStat
  }

  /** A column counter, 0 when absent. */
  function Get(m: Counts, x: string): nat
  {
    if x in m then m[x] else 0
  }

  /** Create the counter of `x` at 0 when absent, then add `n` to it. */
  function Bump(m: Counts, x: string, n: nat): Counts
  {
    m[x := Get(m, x) + n]
  }

  /** Both stores hold the same table records, except possibly (schema, table). */
  ghost predicate AgreeElsewhere(st: Store, r: Store, schema: string, table: string)
  {
    forall s, t :: s != schema || t != table ==>
      (HasTable(st, s, t) <==> HasTable(r, s, t)) &&
      (HasTable(st, s, t) ==> r[s][t] == st[s][t])
  }

  // ---------------------------------------------------------------------------
  // Lazy initialisation

  function EnsureSchema(st: Store, schema: string): (r: Store)
    ensures r.Keys == st.Keys + {schema}
    ensures schema in st ==> r == st
    ensures schema !in st ==> r[schema] == map[]
    ensures forall s :: s in st ==> r[s] == st[s]
  {
    if schema in st then st else st[schema := map[]]
  }

  function EnsureTable(st: Store, schema: string, table: string): (r: Store)
    requires schema in st
    ensures HasTable(r, schema, table)
    ensures r[schema][table] == Lookup(st, schema, table)
    ensures HasTable(st, schema, table) ==> r == st
    ensures r.Keys == st.Keys
    ensures AgreeElsewhere(st, r, schema, table)
  {
    if table in st[schema] then st else st[schema := st[schema][table := FreshStat]]
  }

  /** Store `stat` as the record of (schema, table). */
  function WithStat(st: Store, schema: string, table: string, stat: TableStat): (r: Store)
    requires schema in st
    ensures HasTable(r, schema, table) && r[schema][table] == stat
  {
    st[schema := st[schema][table := stat]]
  }

  /** Storing a table's own record again changes nothing. */
  lemma WithStatSelf(st: Store, schema: string, table: string)
    requires HasTable(st, schema, table)
    ensures WithStat(st, schema, table, st[schema][table]) == st
  {
    assert st[schema][table := st[schema][table]] == st[schema];
  }

  /** Creating a missing counter at 0 and then adding `n` is a bump by `n`. */
  lemma BumpMissing(m: Counts, x: string, n: nat)
    requires x !in m
    ensures m[x := 0][x := m[x := 0][x] + n] == Bump(m, x, n)
  {
  }

  /** Adding `n` to an existing counter is a bump by `n`. */
  lemma BumpPresent(m: Counts, x: string, n: nat)
    requires x in m
    ensures m[x := m[x] + n] == Bump(m, x, n)
  {
  }

  /** Storing two records in a row keeps only the second. */
  lemma WithStatTwice(st: Store, schema: string, table: string, a: TableStat, b: TableStat)
    requires schema in st
    ensures WithStat(WithStat(st, schema, table, a), schema, table, b) == WithStat(st, schema, table, b)
  {
    assert st[schema][table := a][table := b] == st[schema][table := b];
  }

  // ---------------------------------------------------------------------------
  // Table-level DML counters

  function AddDml(st: Store, schema: string, table: string, k: DmlKind, n: nat): (r: Store)
    requires HasTable(st, schema, table)
    ensures HasTable(r, schema, table)
    ensures r[schema][table].tableDmlCount.Of(k) == st[schema][table].tableDmlCount.Of(k) + n
    ensures forall j :: j != k ==>
      r[schema][table].tableDmlCount.Of(j) == st[schema][table].tableDmlCount.Of(j)
    ensures r[schema][table].rowInsertCount == st[schema][table].rowInsertCount
    ensures r[schema][table].rowUpdateCount == st[schema][table].rowUpdateCount
    ensures r.Keys == st.Keys
    ensures AgreeElsewhere(st, r, schema, table)
  {
    var stat := st[schema][table];
    WithStat(st, schema, table, stat.(tableDmlCount := stat.tableDmlCount.Add(k, n)))
  }

  /** What insert_row_stat, update_row_stat and delete_row_stat do: make sure the
      record exists, then add the number of rows to the counter of kind `k`. */
  function RowStat(st: Store, schema: string, table: string, k: DmlKind, n: nat): (r: Store)
    ensures HasTable(r, schema, table)
    ensures r[schema][table].tableDmlCount.Of(k) == Lookup(st, schema, table).tableDmlCount.Of(k) + n
    ensures forall j :: j != k ==>
      r[schema][table].tableDmlCount.Of(j) == Lookup(st, schema, table).tableDmlCount.Of(j)
    ensures r[schema][table].rowInsertCount == Lookup(st, schema, table).rowInsertCount
    ensures r[schema][table].rowUpdateCount == Lookup(st, schema, table).rowUpdateCount
    ensures r.Keys == st.Keys + {schema}
    ensures AgreeElsewhere(st, r, schema, table)
  {
    AddDml(EnsureTable(EnsureSchema(st, schema), schema, table), schema, table, k, n)
  }

  // ---------------------------------------------------------------------------
  // Column counters of insert events

  /** How many of the column descriptors are named `x`. */
  function Occurrences(columns: seq<Column>, x: string): nat
  {
    if columns == [] then 0
    else Occurrences(columns[..|columns| - 1], x) + (if columns[|columns| - 1].name == x then 1 else 0)
  }

  /** The insert counters after adding `n` to the counter of every column, in order. */
  function InsertColCounts(m: Counts, columns: seq<Column>, n: nat): (r: Counts)
    ensures forall x :: Get(r, x) == Get(m, x) + n * Occurrences(columns, x)
    ensures forall x :: x in r <==> x in m || Occurrences(columns, x) > 0
  {
    if columns == [] then m
    else
      var prefix, c := columns[..|columns| - 1], columns[|columns| - 1];
      assert forall x :: n * Occurrences(columns, x) == n * Occurrences(prefix, x) + (if c.name == x then n else 0) by {
        forall x { OccurrencesStep(columns, x, n); }
      }
      Bump(InsertColCounts(m, prefix, n), c.name, n)
  }

  /** One more turn of the column loop bumps the counter of the next column. */
  lemma InsertColCountsStep(m: Counts, columns: seq<Column>, i: nat, n: nat)
    requires i < |columns|
    ensures InsertColCounts(m, columns[..i + 1], n) == Bump(InsertColCounts(m, columns[..i], n), columns[i].name, n)
  {
    assert columns[..i + 1][..i] == columns[..i];
  }

  lemma OccurrencesStep(columns: seq<Column>, x: string, n: nat)
    requires columns != []
    ensures n * Occurrences(columns, x) ==
      n * Occurrences(columns[..|columns| - 1], x) + (if columns[|columns| - 1].name == x then n else 0)
  {
    var a := Occurrences(columns[..|columns| - 1], x);
    var d := if columns[|columns| - 1].name == x then 1 else 0;
    assert Occurrences(columns, x) == a + d;
    MulAddOne(n, a, d);
  }

  lemma MulAddOne(n: nat, a: nat, d: nat)
    requires d <= 1
    ensures n * (a + d) == n * a + (if d == 1 then n else 0)
  {
  }

  /** What insert_row_col_stat does to an existing record. */
  function InsertColStat(st: Store, schema: string, table: string, columns: seq<Column>, n: nat): (r: Store)
    requires HasTable(st, schema, table)
    ensures HasTable(r, schema, table)
    ensures forall x ::
              Get(r[schema][table].rowInsertCount, x) == Get(st[schema][table].rowInsertCount, x) + n * Occurrences(columns, x)
    ensures forall x :: x in r[schema][table].rowInsertCount <==>
      x in st[schema][table].rowInsertCount || Occurrences(columns, x) > 0
    ensures r[schema][table].tableDmlCount == st[schema][table].tableDmlCount
    ensures r[schema][table].rowUpdateCount == st[schema][table].rowUpdateCount
    ensures r.Keys == st.Keys
    ensures AgreeElsewhere(st, r, schema, table)
  {
    var stat := st[schema][table];
    WithStat(st, schema, table, stat.(rowInsertCount := InsertColCounts(stat.rowInsertCount, columns, n)))
  }

  // ---------------------------------------------------------------------------
  // Column counters of update events

  /** Column `c` counts as updated in `row`: it is not part of the primary key
      and its before-value differs from its after-value. */
  predicate Changed<V(==)>(c: Column, row: Row<V>)
    requires Carries(row, c)
  {
    !c.isPrimary && row.before[c.name] != row.after[c.name]
  }

  /** How many descriptors named `x` count as updated in `row`. */
  function ChangedInRow<V(==)>(columns: seq<Column>, row: Row<V>, x: string): nat
    requires CarriesAll(row, columns)
  {
    if columns == [] then 0
    else
      var c := columns[|columns| - 1];
      ChangedInRow(columns[..|columns| - 1], row, x) + (if c.name == x && Changed(c, row) then 1 else 0)
  }

  /** How many (row, descriptor named `x`) pairs count as updated. */
  function ChangedCount<V(==)>(rows: seq<Row<V>>, columns: seq<Column>, x: string): nat
    requires RowsCarryAll(rows, columns)
  {
    if rows == [] then 0
    else ChangedCount(rows[..|rows| - 1], columns, x) + ChangedInRow(columns, rows[|rows| - 1], x)
  }

  /** The update counters after the inner loop over the columns of one row. */
  function RowUpdateCounts<V(==)>(m: Counts, columns: seq<Column>, row: Row<V>): (r: Counts)
    requires CarriesAll(row, columns)
    ensures forall x :: Get(r, x) == Get(m, x) + ChangedInRow(columns, row, x)
    ensures forall x :: x in r <==> x in m || ChangedInRow(columns, row, x) > 0
  {
    if columns == [] then m
    else
      var c := columns[|columns| - 1];
      var prev := RowUpdateCounts(m, columns[..|columns| - 1], row);
      if Changed(c, row) then Bump(prev, c.name, 1) else prev
  }

  /** One more turn of the column loop bumps the counter of the next column
      when it changed in the row, and otherwise changes nothing. */
  lemma RowUpdateCountsStep<V>(m: Counts, columns: seq<Column>, j: nat, row: Row<V>)
    requires CarriesAll(row, columns) && j < |columns|
    ensures CarriesAll(row, columns[..j]) && CarriesAll(row, columns[..j + 1])
    ensures RowUpdateCounts(m, columns[..j + 1], row) ==
      if Changed(columns[j], row) then Bump(RowUpdateCounts(m, columns[..j], row), columns[j].name, 1)
      else RowUpdateCounts(m, columns[..j], row)
  {
    assert columns[..j + 1][..j] == columns[..j];
  }

  /** The update counters after the loop over all rows. */
  function UpdateColCounts<V(==)>(m: Counts, columns: seq<Column>, rows: seq<Row<V>>): (r: Counts)
    requires RowsCarryAll(rows, columns)
    ensures forall x :: Get(r, x) == Get(m, x) + ChangedCount(rows, columns, x)
    ensures forall x :: x in r <==> x in m || ChangedCount(rows, columns, x) > 0
  {
    if rows == [] then m
    else RowUpdateCounts(UpdateColCounts(m, columns, rows[..|rows| - 1]), columns, rows[|rows| - 1])
  }

  /** One more turn of the row loop runs the column loop over the next row. */
  lemma UpdateColCountsStep<V>(m: Counts, columns: seq<Column>, rows: seq<Row<V>>, i: nat)
    requires RowsCarryAll(rows, columns) && i < |rows|
    ensures RowsCarryAll(rows[..i], columns) && RowsCarryAll(rows[..i + 1], columns)
    ensures UpdateColCounts(m, columns, rows[..i + 1]) ==
      RowUpdateCounts(UpdateColCounts(m, columns, rows[..i]), columns, rows[i])
  {
    assert rows[..i + 1][..i] == rows[..i];
  }

  /** What update_row_col_stat does to an existing record. */
  function UpdateColStat<V(==)>(st: Store, schema: string, table: string, columns: seq<Column>, rows: seq<Row<V>>): (r: Store)
    requires HasTable(st, schema, table)
    requires RowsCarryAll(rows, columns)
    ensures HasTable(r, schema, table)
    ensures forall x ::
              Get(r[schema][table].rowUpdateCount, x) == Get(st[schema][table].rowUpdateCount, x) + ChangedCount(rows, columns, x)
    ensures forall x :: x in r[schema][table].rowUpdateCount <==>
      x in st[schema][table].rowUpdateCount || ChangedCount(rows, columns, x) > 0
    ensures r[schema][table].tableDmlCount == st[schema][table].tableDmlCount
    ensures r[schema][table].rowInsertCount == st[schema][table].rowInsertCount
    ensures r.Keys == st.Keys
    ensures AgreeElsewhere(st, r, schema, table)
  {
    var stat := st[schema][table];
    WithStat(st, schema, table, stat.(rowUpdateCount := UpdateColCounts(stat.rowUpdateCount, columns, rows)))
  }

  // ---------------------------------------------------------------------------
  // Whole events and streams

  /** One pass of the dispatch loop of run_parse over event `e`. */
  function ApplyEvent<V(==)>(st: Store, e: Event<V>): (r: Store)
    requires WellFormed(e)
    ensures Classify(e.eventType) == None ==> r == st
    ensures Classify(e.eventType).Some? ==> HasTable(r, e.schema, e.table)
    ensures Classify(e.eventType).Some? ==> AgreeElsewhere(st, r, e.schema, e.table)
    ensures Classify(e.eventType).Some? ==> r.Keys == st.Keys + {e.schema}
    ensures forall k :: Classify(e.eventType) == Some(k) ==>
      r[e.schema][e.table].tableDmlCount.Of(k) == Lookup(st, e.schema, e.table).tableDmlCount.Of(k) + |e.rows|
    ensures forall k, j :: Classify(e.eventType) == Some(k) && j != k ==>
      r[e.schema][e.table].tableDmlCount.Of(j) == Lookup(st, e.schema, e.table).tableDmlCount.Of(j)
    ensures Classify(e.eventType) == Some(Insert) ==>
      (forall x :: Get(r[e.schema][e.table].rowInsertCount, x) ==
        Get(Lookup(st, e.schema, e.table).rowInsertCount, x) + |e.rows| * Occurrences(e.columns, x)) &&
      (forall x :: x in r[e.schema][e.table].rowInsertCount <==>
        x in Lookup(st, e.schema, e.table).rowInsertCount || Occurrences(e.columns, x) > 0) &&
      r[e.schema][e.table].rowUpdateCount == Lookup(st, e.schema, e.table).rowUpdateCount
    ensures Classify(e.eventType) == Some(Update) ==>
      (forall x :: Get(r[e.schema][e.table].rowUpdateCount, x) ==
        Get(Lookup(st, e.schema, e.table).rowUpdateCount, x) + ChangedCount(e.rows, e.columns, x)) &&
      (forall x :: x in r[e.schema][e.table].rowUpdateCount <==>
        x in Lookup(st, e.schema, e.table).rowUpdateCount || ChangedCount(e.rows, e.columns, x) > 0) &&
      r[e.schema][e.table].rowInsertCount == Lookup(st, e.schema, e.table).rowInsertCount
    ensures Classify(e.eventType) == Some(Delete) ==>
      r[e.schema][e.table].rowInsertCount == Lookup(st, e.schema, e.table).rowInsertCount &&
      r[e.schema][e.table].rowUpdateCount == Lookup(st, e.schema, e.table).rowUpdateCount
  {
    var n := |e.rows|;
    match Classify(e.eventType)
    case Some(Insert) => InsertColStat(RowStat(st, e.schema, e.table, Insert, n), e.schema, e.table, e.columns, n)
    case Some(Update) => UpdateColStat(RowStat(st, e.schema, e.table, Update, n), e.schema, e.table, e.columns, e.rows)
    case Some(Delete) => RowStat(st, e.schema, e.table, Delete, n)
    case None => st
  }

  predicate AllWellFormed<V>(events: seq<Event<V>>)
  {
    forall i :: 0 <= i < |events| ==> WellFormed(events[i])
  }

  /** The store after run_parse has consumed `events`, in order. Nothing is
      ever removed: every schema and every record present before is present after. */
  function Replay<V(==)>(st: Store, events: seq<Event<V>>): (r: Store)
    requires AllWellFormed(events)
    ensures st.Keys <= r.Keys
    ensures forall s, t :: HasTable(st, s, t) ==> HasTable(r, s, t)
  {
    if events == [] then st
    else ApplyEvent(Replay(st, events[..|events| - 1]), events[|events| - 1])
  }
}
