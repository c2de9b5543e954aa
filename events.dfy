/** Decoded row-change events, as the replication stream hands them to the
    statistics engine. Only what the engine reads is kept: the event type code,
    the schema and table names, the column descriptors and the rows. */
module Events {

  datatype Option<T> = None | Some(value: T)

  /** The three DML operations whose rows are counted per table. */
  datatype DmlKind = Insert | Update | Delete

  /** Row-event type codes of the MySQL binary log, version 2 row events. */
  const WRITE_ROWS_EVENT: int := 30
  const UPDATE_ROWS_EVENT: int := 31
  const DELETE_ROWS_EVENT: int := 32

  /** The event type code of the row events of each DML kind. */
  function Code(k: DmlKind): int
  {
    match k
    case Insert => WRITE_ROWS_EVENT
    case Update => UPDATE_ROWS_EVENT
    case Delete => DELETE_ROWS_EVENT
  }

  /** The DML kind an event type code stands for; any other code is ignored. */
  function Classify(eventType: int): (r: Option<DmlKind>)
    ensures forall k :: r == Some(k) <==> eventType == Code(k)
  {
    if eventType == WRITE_ROWS_EVENT then Some(Insert)
    else if eventType == UPDATE_ROWS_EVENT then Some(Update)
    else if eventType == DELETE_ROWS_EVENT then Some(Delete)
    else None
  }

  /** A column descriptor of the table an event is about. */
  datatype Column = Column(name: string, isPrimary: bool)

  /** One row of an event: the row image of a write or delete event, or the
      before and after images of an update event. Column values are opaque. */
  datatype Row<V> =
    | Values(values: map<string, V>)
    | Change(before: map<string, V>, after: map<string, V>)

  datatype Event<V> = Event(
    eventType: int,
    schema: string,
    table: string,
    columns: seq<Column>,
    rows: seq<Row<V>>)

  /** The update diff can read column `c` of `row`: the row has before and after
      images, and a non-primary-key column is present in both. */
  predicate Carries<V>(row: Row<V>, c: Column)
  {
    row.Change? && (!c.isPrimary ==> c.name in row.before && c.name in row.after)
  }

  predicate CarriesAll<V>(row: Row<V>, columns: seq<Column>)
  {
    forall j :: 0 <= j < |columns| ==> Carries(row, columns[j])
  }

  predicate RowsCarryAll<V>(rows: seq<Row<V>>, columns: seq<Column>)
  {
    forall i :: 0 <= i < |rows| ==> CarriesAll(rows[i], columns)
  }

  /** What the engine needs of an event: every row of an update event has both
      images, holding every non-primary-key column. */
  predicate WellFormed<V>(e: Event<V>)
  {
    e.eventType == UPDATE_ROWS_EVENT ==> RowsCarryAll(e.rows, e.columns)
  }
}
