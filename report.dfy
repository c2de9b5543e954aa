/** The final report: the store flattened into one "schema.table" entry per
    record, then sorted by one DML counter, largest first, ties kept in the
    order the store enumerated them. */
module Report {
  import opened Events
  import opened Stats

  /** One entry of the report; its key is "schema.table". */
  datatype Entry = Entry(schema: string, table: string, stat: TableStat)
  {
    function Key(): string
    {
      schema + "." + table
    }
  }

  /** The position of the first dot of `k`, or `|k|` when it has none. */
  function FirstDot(k: string): (r: nat)
    ensures r <= |k|
    ensures forall i :: 0 <= i < r ==> k[i] != '.'
    ensures r < |k| ==> k[r] == '.'
  {
    if k == [] || k[0] == '.' then 0 else 1 + FirstDot(k[1..])
  }

  lemma {:induction false} FirstDotOfKey(schema: string, table: string)
    requires '.' !in schema
    ensures FirstDot(schema + "." + table) == |schema|
  {
    var key := schema + "." + table;
    if schema == [] {
      assert key[0] == '.';
    } else {
      assert key[0] == schema[0];
      assert key[1..] == schema[1..] + "." + table;
      FirstDotOfKey(schema[1..], table);
    }
  }

  /** The "schema.table" key names its record unambiguously as long as schema
      names carry no dot: the first dot of the key ends the schema name. */
  lemma KeyInjective(a: Entry, b: Entry)
    requires '.' !in a.schema && '.' !in b.schema
    requires a.Key() == b.Key()
    ensures a.schema == b.schema && a.table == b.table
  {
    var key := a.Key();
    FirstDotOfKey(a.schema, a.table);
    FirstDotOfKey(b.schema, b.table);
    assert a.schema == key[..|a.schema|] == b.schema;
    assert a.table == key[|a.schema| + 1..] == b.table;
  }

  datatype SortError = UnknownSortKey(sortedBy: string)

  datatype Result<T> = Ok(value: T) | Err(error: SortError)

  // ---------------------------------------------------------------------------
  // Enumeration of the store

  /** The order in which the store's schemas, and each schema's tables, are
      visited. The maps have no order of their own, so it is given. */
  predicate Covers(st: Store, schemaOrder: seq<string>, tableOrder: map<string, seq<string>>)
  {
    forall i :: 0 <= i < |schemaOrder| ==>
      schemaOrder[i] in st && schemaOrder[i] in tableOrder &&
      forall j :: 0 <= j < |tableOrder[schemaOrder[i]]| ==> tableOrder[schemaOrder[i]][j] in st[schemaOrder[i]]
  }

  predicate Distinct(q: seq<string>)
  {
    forall i, j :: 0 <= i < j < |q| ==> q[i] != q[j]
  }

  /** The orders visit every schema and every table of the store exactly once. */
  predicate Enumerates(st: Store, schemaOrder: seq<string>, tableOrder: map<string, seq<string>>)
  {
    && Covers(st, schemaOrder, tableOrder)
    && Distinct(schemaOrder)
    && (forall s :: s in st ==> s in schemaOrder)
    && (forall s :: s in st ==>
          s in tableOrder && Distinct(tableOrder[s]) && forall t :: t in st[s] ==> t in tableOrder[s])
  }

  function TableEntries(schema: string, tables: map<string, TableStat>, order: seq<string>): (r: seq<Entry>)
    requires forall j :: 0 <= j < |order| ==> order[j] in tables
    ensures |r| == |order|
    ensures forall j :: 0 <= j < |r| ==> r[j] == Entry(schema, order[j], tables[order[j]])
  {
    if order == [] then []
    else [Entry(schema, order[0], tables[order[0]])] + TableEntries(schema, tables, order[1..])
  }

  /** iter_table_stat_format: for each schema, for each of its tables, one entry. */
  function Flatten(st: Store, schemaOrder: seq<string>, tableOrder: map<string, seq<string>>): seq<Entry>
    requires Covers(st, schemaOrder, tableOrder)
  {
    if schemaOrder == [] then []
    else
      var s := schemaOrder[0];
      TableEntries(s, st[s], tableOrder[s]) + Flatten(st, schemaOrder[1..], tableOrder)
  }

  /** Entry `e` is the record of a (schema, table) the orders list. */
  ghost predicate Listed(st: Store, schemaOrder: seq<string>, tableOrder: map<string, seq<string>>, e: Entry)
  {
    e.schema in schemaOrder && e.schema in tableOrder && e.table in tableOrder[e.schema] &&
    HasTable(st, e.schema, e.table) && e.stat == st[e.schema][e.table]
  }

  lemma CoversRest(st: Store, schemaOrder: seq<string>, tableOrder: map<string, seq<string>>)
    requires Covers(st, schemaOrder, tableOrder) && schemaOrder != []
    ensures Covers(st, schemaOrder[1..], tableOrder)
    ensures forall q :: q in schemaOrder[1..] ==> q in schemaOrder
  {
    var rest := schemaOrder[1..];
    forall i | 0 <= i < |rest|
      ensures rest[i] in st && rest[i] in tableOrder &&
        forall j :: 0 <= j < |tableOrder[rest[i]]| ==> tableOrder[rest[i]][j] in st[rest[i]]
    {
      assert rest[i] == schemaOrder[i + 1];
    }
  }

  lemma {:induction false} FlattenSound(st: Store, schemaOrder: seq<string>, tableOrder: map<string, seq<string>>)
    requires Covers(st, schemaOrder, tableOrder)
    ensures forall i :: 0 <= i < |Flatten(st, schemaOrder, tableOrder)| ==>
      Listed(st, schemaOrder, tableOrder, Flatten(st, schemaOrder, tableOrder)[i])
  {
    if schemaOrder != [] {
      var s, rest := schemaOrder[0], schemaOrder[1..];
      CoversRest(st, schemaOrder, tableOrder);
      FlattenSound(st, rest, tableOrder);
      var head := TableEntries(s, st[s], tableOrder[s]);
      var r := Flatten(st, schemaOrder, tableOrder);
      assert r == head + Flatten(st, rest, tableOrder);
      forall i | 0 <= i < |r| ensures Listed(st, schemaOrder, tableOrder, r[i]) {
        if i < |head| {
          assert r[i] == head[i];
          assert tableOrder[s][i] in st[s];
        } else {
          assert r[i] == Flatten(st, rest, tableOrder)[i - |head|];
        }
      }
    }
  }

  lemma {:induction false} FlattenIndex(st: Store, schemaOrder: seq<string>, tableOrder: map<string, seq<string>>,
                                        schema: string, table: string) returns (i: nat)
    requires Covers(st, schemaOrder, tableOrder)
    requires schema in schemaOrder && schema in tableOrder && table in tableOrder[schema]
    ensures i < |Flatten(st, schemaOrder, tableOrder)|
    ensures Flatten(st, schemaOrder, tableOrder)[i].schema == schema
    ensures Flatten(st, schemaOrder, tableOrder)[i].table == table
  {
    var s, rest := schemaOrder[0], schemaOrder[1..];
    CoversRest(st, schemaOrder, tableOrder);
    var head := TableEntries(s, st[s], tableOrder[s]);
    assert Flatten(st, schemaOrder, tableOrder) == head + Flatten(st, rest, tableOrder);
    if schema == s {
      var j :| 0 <= j < |tableOrder[s]| && tableOrder[s][j] == table;
      i := j;
    } else {
      assert schema in rest;
      var j := FlattenIndex(st, rest, tableOrder, schema, table);
      i := |head| + j;
    }
  }

  lemma {:induction false} FlattenDistinct(st: Store, schemaOrder: seq<string>, tableOrder: map<string, seq<string>>)
    requires Covers(st, schemaOrder, tableOrder)
    requires Distinct(schemaOrder)
    requires forall s :: s in schemaOrder && s in tableOrder ==> Distinct(tableOrder[s])
    ensures forall i, j :: 0 <= i < j < |Flatten(st, schemaOrder, tableOrder)| ==>
      Flatten(st, schemaOrder, tableOrder)[i].schema != Flatten(st, schemaOrder, tableOrder)[j].schema ||
      Flatten(st, schemaOrder, tableOrder)[i].table != Flatten(st, schemaOrder, tableOrder)[j].table
  {
    if schemaOrder != [] {
      var s, rest := schemaOrder[0], schemaOrder[1..];
      CoversRest(st, schemaOrder, tableOrder);
      assert Distinct(rest) by {
        forall i, j | 0 <= i < j < |rest| ensures rest[i] != rest[j] {
          assert rest[i] == schemaOrder[i + 1] && rest[j] == schemaOrder[j + 1];
        }
      }
      assert s !in rest by {
        forall i | 0 <= i < |rest| ensures rest[i] != s {
          assert rest[i] == schemaOrder[i + 1];
        }
      }
      FlattenDistinct(st, rest, tableOrder);
      FlattenSound(st, rest, tableOrder);
      var head := TableEntries(s, st[s], tableOrder[s]);
      var r := Flatten(st, schemaOrder, tableOrder);
      assert r == head + Flatten(st, rest, tableOrder);
      forall i, j | 0 <= i < j < |r| ensures r[i].schema != r[j].schema || r[i].table != r[j].table {
        if j < |head| {
          assert r[i] == head[i] && r[j] == head[j];
        } else if i < |head| {
          assert r[i] == head[i];
          assert r[j] == Flatten(st, rest, tableOrder)[j - |head|];
        } else {
          assert r[i] == Flatten(st, rest, tableOrder)[i - |head|];
          assert r[j] == Flatten(st, rest, tableOrder)[j - |head|];
        }
      }
    }
  }

  /** `q` lists the store with one entry per record: every entry carries the
      record of its (schema, table), every record has an entry, and no
      (schema, table) has two. */
  ghost predicate OneEntryPerRecord(st: Store, q: seq<Entry>)
  {
    && (forall i :: 0 <= i < |q| ==> HasTable(st, q[i].schema, q[i].table) && q[i].stat == st[q[i].schema][q[i].table])
    && (forall s, t :: HasTable(st, s, t) ==> exists i :: 0 <= i < |q| && q[i].schema == s && q[i].table == t)
    && (forall i, j :: 0 <= i < j < |q| ==> q[i].schema != q[j].schema || q[i].table != q[j].table)
  }

  /** When the orders enumerate the store, iter_table_stat_format yields one
      entry per record; so it yields nothing exactly when the store has no record. */
  lemma FlattenEnumerates(st: Store, schemaOrder: seq<string>, tableOrder: map<string, seq<string>>)
    requires Enumerates(st, schemaOrder, tableOrder)
    ensures OneEntryPerRecord(st, Flatten(st, schemaOrder, tableOrder))
    ensures Flatten(st, schemaOrder, tableOrder) != [] <==> exists s, t :: HasTable(st, s, t)
  {
    var q := Flatten(st, schemaOrder, tableOrder);
    FlattenSound(st, schemaOrder, tableOrder);
    FlattenDistinct(st, schemaOrder, tableOrder);
    forall s, t | HasTable(st, s, t)
      ensures exists i :: 0 <= i < |q| && q[i].schema == s && q[i].table == t
    {
      var i := FlattenIndex(st, schemaOrder, tableOrder, s, t);
    }
    if q != [] {
      assert HasTable(st, q[0].schema, q[0].table);
    }
  }

  /** A sequence with no repeated element holds each value at most once. */
  lemma {:induction false} NoRepeatCount(q: seq<Entry>, x: Entry)
    requires forall i, j :: 0 <= i < j < |q| ==> q[i] != q[j]
    ensures multiset(q)[x] <= 1
  {
    if q != [] {
      assert q == [q[0]] + q[1..];
      NoRepeatCount(q[1..], x);
      if q[0] == x {
        assert x !in q[1..];
      }
    }
  }

  /** A permutation of a list of records with one entry per record is one too. */
  lemma PermutationOnePerRecord(st: Store, a: seq<Entry>, b: seq<Entry>)
    requires multiset(a) == multiset(b)
    requires OneEntryPerRecord(st, b)
    ensures OneEntryPerRecord(st, a)
  {
    forall i | 0 <= i < |a|
      ensures HasTable(st, a[i].schema, a[i].table) && a[i].stat == st[a[i].schema][a[i].table]
    {
      assert a[i] in multiset(b);
    }
    forall s, t | HasTable(st, s, t)
      ensures exists i :: 0 <= i < |a| && a[i].schema == s && a[i].table == t
    {
      var j :| 0 <= j < |b| && b[j].schema == s && b[j].table == t;
      assert b[j] in multiset(a);
      var i :| 0 <= i < |a| && a[i] == b[j];
    }
    assert forall i, j :: 0 <= i < j < |b| ==> b[i] != b[j];
    forall i, j | 0 <= i < j < |a|
      ensures a[i].schema != a[j].schema || a[i].table != a[j].table
    {
      if a[i].schema == a[j].schema && a[i].table == a[j].table {
        assert a[i] == a[j];
        assert a == a[..j] + [a[j]] + a[j + 1..];
        assert a[i] in a[..j];
        assert multiset(a)[a[i]] >= 2;
        NoRepeatCount(b, a[i]);
        assert false;
      }
    }
  }

  // ---------------------------------------------------------------------------
  // The sort key

  /** Python's str.lower on ASCII letters. */
  function LowerChar(c: char): char
  {
    if 'A' <= c <= 'Z' then (c as int + 32) as char else c
  }

  function Lower(s: string): (r: string)
    ensures |r| == |s|
    ensures forall i :: 0 <= i < |s| ==> r[i] == LowerChar(s[i])
  {
    if s == [] then [] else [LowerChar(s[0])] + Lower(s[1..])
  }

  /** The key of table_dml_count that counts rows of kind `k`. */
  function KeyName(k: DmlKind): string
  {
    match k
    case Insert => "insert"
    case Update => "update"
    case Delete => "delete"
  }

  /** The counter a `by` argument selects, whatever its letter case. */
  function ParseSortKey(sortedBy: string): (r: Option<DmlKind>)
    ensures forall k :: r == Some(k) <==> Lower(sortedBy) == KeyName(k)
  {
    var key := Lower(sortedBy);
    if key == "insert" then Some(Insert)
    else if key == "update" then Some(Update)
    else if key == "delete" then Some(Delete)
    else None
  }

  lemma ParseSortKeyCaseInsensitive(sortedBy: string)
    ensures ParseSortKey(Lower(sortedBy)) == ParseSortKey(sortedBy)
  {
    assert Lower(Lower(sortedBy)) == Lower(sortedBy);
  }

  // ---------------------------------------------------------------------------
  // The stable descending sort

  function SortValue(e: Entry, k: DmlKind): nat
  {
    e.stat.tableDmlCount.Of(k)
  }

  predicate NonIncreasing(s: seq<Entry>, k: DmlKind)
  {
    forall i, j :: 0 <= i < j < |s| ==> SortValue(s[i], k) >= SortValue(s[j], k)
  }

  /** The entries whose counter `k` equals `v`, in their order in `s`. */
  function Ties(s: seq<Entry>, k: DmlKind, v: nat): seq<Entry>
  {
    if s == [] then []
    else (if SortValue(s[0], k) == v then [s[0]] else []) + Ties(s[1..], k, v)
  }

  /** Put `x` in front of the first entry whose counter is not larger. */
  function InsertDesc(x: Entry, s: seq<Entry>, k: DmlKind): seq<Entry>
  {
    if s == [] then [x]
    else if SortValue(s[0], k) <= SortValue(x, k) then [x] + s
    else [s[0]] + InsertDesc(x, s[1..], k)
  }

  lemma TiesCons(a: Entry, t: seq<Entry>, k: DmlKind, v: nat)
    ensures Ties([a] + t, k, v) == (if SortValue(a, k) == v then [a] else []) + Ties(t, k, v)
  {
    assert ([a] + t)[0] == a;
    assert ([a] + t)[1..] == t;
  }

  /** Inserting `x` keeps the entries that tie with each other in their order,
      `x` in front of the ones it ties with. */
  lemma {:induction false} InsertDescTies(x: Entry, s: seq<Entry>, k: DmlKind, v: nat)
    ensures Ties(InsertDesc(x, s, k), k, v) == (if SortValue(x, k) == v then [x] else []) + Ties(s, k, v)
  {
    if s == [] {
      TiesCons(x, [], k, v);
    } else if SortValue(s[0], k) <= SortValue(x, k) {
      TiesCons(x, s, k, v);
    } else {
      InsertDescTies(x, s[1..], k, v);
      TiesCons(s[0], InsertDesc(x, s[1..], k), k, v);
      TiesCons(s[0], s[1..], k, v);
      assert s == [s[0]] + s[1..];
    }
  }

  lemma {:induction false} InsertDescMultiset(x: Entry, s: seq<Entry>, k: DmlKind)
    ensures multiset(InsertDesc(x, s, k)) == multiset(s) + multiset{x}
  {
    if s != [] && SortValue(s[0], k) > SortValue(x, k) {
      InsertDescMultiset(x, s[1..], k);
      assert s == [s[0]] + s[1..];
    }
  }

  lemma {:induction false} InsertDescBound(x: Entry, s: seq<Entry>, k: DmlKind, b: nat)
    requires SortValue(x, k) <= b
    requires forall i :: 0 <= i < |s| ==> SortValue(s[i], k) <= b
    ensures forall i :: 0 <= i < |InsertDesc(x, s, k)| ==> SortValue(InsertDesc(x, s, k)[i], k) <= b
  {
    if s != [] && SortValue(s[0], k) > SortValue(x, k) {
      InsertDescBound(x, s[1..], k, b);
    }
  }

  lemma {:induction false} InsertDescSorted(x: Entry, s: seq<Entry>, k: DmlKind)
    requires NonIncreasing(s, k)
    ensures NonIncreasing(InsertDesc(x, s, k), k)
  {
    if s != [] && SortValue(s[0], k) > SortValue(x, k) {
      var rest := InsertDesc(x, s[1..], k);
      InsertDescSorted(x, s[1..], k);
      InsertDescBound(x, s[1..], k, SortValue(s[0], k));
      var r := [s[0]] + rest;
      assert r == InsertDesc(x, s, k);
      forall i, j | 0 <= i < j < |r| ensures SortValue(r[i], k) >= SortValue(r[j], k) {
        assert r[j] == rest[j - 1];
        if i > 0 {
          assert r[i] == rest[i - 1];
        }
      }
    }
  }

  /** sorted(entries, key=counter k, reverse=True), which Python sorts stably. */
  function SortDesc(s: seq<Entry>, k: DmlKind): seq<Entry>
  {
    if s == [] then [] else InsertDesc(s[0], SortDesc(s[1..], k), k)
  }

  /** The sort returns a permutation of its input, ordered by counter `k`
      from largest to smallest, and entries with equal counters keep their
      relative order. */
  lemma {:induction false} SortDescCorrect(s: seq<Entry>, k: DmlKind)
    ensures multiset(SortDesc(s, k)) == multiset(s)
    ensures NonIncreasing(SortDesc(s, k), k)
    ensures forall v :: Ties(SortDesc(s, k), k, v) == Ties(s, k, v)
  {
    if s != [] {
      var rest := SortDesc(s[1..], k);
      SortDescCorrect(s[1..], k);
      InsertDescMultiset(s[0], rest, k);
      InsertDescSorted(s[0], rest, k);
      assert s == [s[0]] + s[1..];
      forall v ensures Ties(SortDesc(s, k), k, v) == Ties(s, k, v) {
        InsertDescTies(s[0], rest, k, v);
        TiesCons(s[0], s[1..], k, v);
      }
    }
  }

  /** Three tables with 10, 50 and 5 inserted rows are reported 50, 10, 5. */
  lemma SortDescExample(a: Entry, b: Entry, c: Entry)
    requires SortValue(a, Insert) == 10 && SortValue(b, Insert) == 50 && SortValue(c, Insert) == 5
    ensures SortDesc([a, b, c], Insert) == [b, a, c]
  {
    assert [a, b, c][1..] == [b, c];
    assert [b, c][1..] == [c];
    assert [c][1..] == [];
    assert SortDesc([c], Insert) == [c];
    assert SortDesc([b, c], Insert) == InsertDesc(b, [c], Insert) == [b, c];
    assert InsertDesc(a, [b, c], Insert) == [b] + InsertDesc(a, [c], Insert) == [b, a, c];
  }

  /** print_sort_stat, up to the JSON rendering: the entries sorted by the
      counter `by` names. The key is only looked up for an entry, so a store
      with no record yields an empty report whatever `by` is. */
  function SortStat(st: Store, schemaOrder: seq<string>, tableOrder: map<string, seq<string>>, sortedBy: string): (r: Result<seq<Entry>>)
    requires Enumerates(st, schemaOrder, tableOrder)
    ensures r.Err? <==> (exists s, t :: HasTable(st, s, t)) && ParseSortKey(sortedBy) == None
    ensures r.Err? ==> r.error == UnknownSortKey(Lower(sortedBy))
    ensures r.Ok? ==> OneEntryPerRecord(st, r.value)
    ensures r.Ok? ==> multiset(r.value) == multiset(Flatten(st, schemaOrder, tableOrder))
    ensures forall k :: r.Ok? && ParseSortKey(sortedBy) == Some(k) ==>
      NonIncreasing(r.value, k) &&
      forall v :: Ties(r.value, k, v) == Ties(Flatten(st, schemaOrder, tableOrder), k, v)
  {
    var entries := Flatten(st, schemaOrder, tableOrder);
    FlattenEnumerates(st, schemaOrder, tableOrder);
    if entries == [] then Ok([])
    else
      match ParseSortKey(sortedBy)
      case None => Err(UnknownSortKey(Lower(sortedBy)))
      case Some(k) =>
        SortDescCorrect(entries, k);
        PermutationOnePerRecord(st, SortDesc(entries, k), entries);
        Ok(SortDesc(entries, k))
  }
}
