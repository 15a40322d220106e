/** One table, its indexes, and the statements that maintain and read them. */
module Database {
  import opened Values
  import opened IndexLog
  import opened Expressions
  import opened Optimizer
  import opened Plans
  import opened Executors
  import opened TableHeaps
  import opened DiskHash
  import opened DiskBTree
  import HeapPages
  import HashPlacement
  import HashPages
  import BTreeInt64
  import BTreeModel
  import BTreePages
  import BTreeShape
  import BTreeKept

  // ----- Pure bookkeeping -----

  /** The place of the column with the given oid, or the number of columns. */
  function ColPos(columns: seq<Column>, oid: int): (pos: nat)
    ensures pos <= |columns| && (pos < |columns| ==> columns[pos].oid == oid)
    ensures forall i :: 0 <= i < pos ==> columns[i].oid != oid
  {
    if columns == [] || columns[0].oid == oid then 0 else 1 + ColPos(columns[1..], oid)
  }

  ghost function RowsWith(rows: Table, pos: nat, v: Value): set<Tid> {
    set t | t in rows && pos < |rows[t]| && rows[t][pos] == v
  }

  /** An inserted row and its index entry keep the agreement. */
  lemma AgreesGains(log: seq<Entry>, rows: Table, pos: nat, tid: Tid, values: Row)
    requires Agrees(log, rows, pos) && tid !in rows && pos < |values|
    ensures Agrees(log + [Entry(values[pos], tid)], rows[tid := values], pos)
  {
    hide TidsOf;
    var rows', e := rows[tid := values], Entry(values[pos], tid);
    forall k, t ensures multiset(TidsOf(log + [e], k))[t] == if t in rows' && pos < |rows'[t]| && rows'[t][pos] == k then 1 else 0 {
      TidsOfSnoc(log, e, k);
      assert multiset(TidsOf(log, k))[t] == if t in rows && pos < |rows[t]| && rows[t][pos] == k then 1 else 0;
    }
  }

  lemma AgreesOnNothing(pos: nat)
    ensures Agrees([], map[], pos)
  {
  }

  /** The TIDs of a key are as many as the rows that carry it. */
  lemma AgreesCounts(log: seq<Entry>, rows: Table, pos: nat, v: Value)
    requires Agrees(log, rows, pos)
    ensures |TidsOf(log, v)| == |RowsWith(rows, pos, v)|
  {
    hide TidsOf;
    var s := RowsWith(rows, pos, v);
    assert multiset(TidsOf(log, v)) == multiset(s) by {
      forall t ensures multiset(TidsOf(log, v))[t] == multiset(s)[t] {
      }
    }
    assert |multiset(s)| == |s|;
  }

  /** The rows among the first `n` scanned TIDs. */
  ghost function Scanned(tids: seq<Tid>, n: nat, rows: Table): Table
    requires n <= |tids|
  {
    map t | t in rows && t in tids[..n] :: rows[t]
  }

  lemma ScannedNone(rows: Table)
    ensures forall tids :: Scanned(tids, 0, rows) == map[]
  {
  }

  lemma ScannedGrows(tids: seq<Tid>, n: nat, rows: Table)
    requires n < |tids| && ScansOnce(tids, rows)
    ensures tids[n] in rows && tids[n] !in Scanned(tids, n, rows)
    ensures Scanned(tids, n + 1, rows) == Scanned(tids, n, rows)[tids[n] := rows[tids[n]]]
  {
    assert tids[n] in multiset(tids);
    assert tids == tids[..n] + [tids[n]] + tids[n + 1..];
    assert multiset(tids)[tids[n]] <= 1;
    assert tids[..n + 1] == tids[..n] + [tids[n]];
  }

  lemma ScannedAll(tids: seq<Tid>, rows: Table)
    requires ScansOnce(tids, rows)
    ensures Scanned(tids, |tids|, rows) == rows && |tids| == |rows|
  {
    assert tids[..|tids|] == tids;
    forall t ensures t in rows ==> t in tids {
      assert t in rows ==> t in multiset(tids);
    }
    assert multiset(tids) == multiset(rows.Keys);
    assert |multiset(rows.Keys)| == |rows.Keys|;
  }

  /** The pair of every row once, by page and then by slot. */
  ghost predicate ScanPairs(pairs: seq<Entry>, rows: Table, pos: nat) {
    && (forall i :: 0 <= i < |pairs| ==>
          pairs[i].tid in rows && pos < |rows[pairs[i].tid]| && pairs[i].key == rows[pairs[i].tid][pos])
    && (forall t :: t in rows ==> exists i :: 0 <= i < |pairs| && pairs[i].tid == t)
    && (forall i, j :: 0 <= i < j < |pairs| ==> Before(pairs[i].tid, pairs[j].tid.pageID, pairs[j].tid.slotID))
  }

  lemma ScanPairsTail(pairs: seq<Entry>, rows: Table, pos: nat)
    requires ScanPairs(pairs, rows, pos) && pairs != []
    ensures ScanPairs(pairs[1..], rows - {pairs[0].tid}, pos)
  {
    var tail, left := pairs[1..], rows - {pairs[0].tid};
    forall i | 0 <= i < |tail| ensures tail[i].tid in left && pos < |left[tail[i].tid]| && tail[i].key == left[tail[i].tid][pos] {
      assert tail[i] == pairs[i + 1] && Before(pairs[0].tid, pairs[i + 1].tid.pageID, pairs[i + 1].tid.slotID);
    }
    forall t | t in left ensures exists i :: 0 <= i < |tail| && tail[i].tid == t {
      var i :| 0 <= i < |pairs| && pairs[i].tid == t;
      assert tail[i - 1].tid == t;
    }
  }

  lemma FirstPair(a: seq<Entry>, b: seq<Entry>, rows: Table, pos: nat)
    requires ScanPairs(a, rows, pos) && ScanPairs(b, rows, pos)
    ensures a == [] <==> b == []
    ensures a != [] ==> a[0] == b[0]
  {
    assert a != [] ==> a[0].tid in rows;
    assert b != [] ==> b[0].tid in rows;
    if a != [] && b != [] {
      var i :| 0 <= i < |a| && a[i].tid == b[0].tid;
      var j :| 0 <= j < |b| && b[j].tid == a[0].tid;
      assert i > 0 ==> Before(a[0].tid, a[i].tid.pageID, a[i].tid.slotID);
      assert j > 0 ==> Before(b[0].tid, b[j].tid.pageID, b[j].tid.slotID);
    }
  }

  /** There is only one such listing. */
  lemma {:induction false} ScanPairsAreUnique(a: seq<Entry>, b: seq<Entry>, rows: Table, pos: nat)
    requires ScanPairs(a, rows, pos) && ScanPairs(b, rows, pos)
    ensures a == b
  {
    hide ScanPairs;
    FirstPair(a, b, rows, pos);
    if a != [] {
      ScanPairsTail(a, rows, pos);
      ScanPairsTail(b, rows, pos);
      ScanPairsAreUnique(a[1..], b[1..], rows - {a[0].tid}, pos);
      assert a == [a[0]] + a[1..] && b == [b[0]] + b[1..];
    }
  }

  /** The pairs of the scanned TIDs. */
  ghost function PairsOf(tids: seq<Tid>, rows: Table, pos: nat): (pairs: seq<Entry>)
    requires forall i :: 0 <= i < |tids| ==> tids[i] in rows && pos < |rows[tids[i]]|
    ensures |pairs| == |tids| && forall i :: 0 <= i < |tids| ==> pairs[i] == Entry(rows[tids[i]][pos], tids[i])
  {
    seq(|tids|, i requires 0 <= i < |tids| => Entry(rows[tids[i]][pos], tids[i]))
  }

  lemma ScannedInOrder(tids: seq<Tid>, rows: Table, pos: nat)
    requires ScansOnce(tids, rows) && TableHeaps.Ascending(tids)
    requires forall i :: 0 <= i < |tids| ==> tids[i] in rows && pos < |rows[tids[i]]|
    ensures ScanPairs(PairsOf(tids, rows, pos), rows, pos)
  {
    var pairs := PairsOf(tids, rows, pos);
    forall t | t in rows ensures exists i :: 0 <= i < |pairs| && pairs[i].tid == t {
      assert t in multiset(tids);
      var i :| 0 <= i < |tids| && tids[i] == t;
      assert pairs[i].tid == t;
    }
  }

  lemma RowsWithGrows(small: Table, rows: Table, pos: nat, v: Value)
    requires forall t :: t in small ==> t in rows && rows[t] == small[t]
    ensures |RowsWith(small, pos, v)| <= |RowsWith(rows, pos, v)| && |small| <= |rows|
  {
    SubsetCardinality(RowsWith(small, pos, v), RowsWith(rows, pos, v));
    SubsetCardinality(small.Keys, rows.Keys);
  }

  // ----- The schema -----

  function ColumnType(cat: Catalog, c: Column): Type
    requires c.typeOid in cat.types
  {
    TypeOf(ToExprType(cat.types[c.typeOid]))
  }

  /** The catalog lists the heap's columns, in order, each with a type the heap knows. */
  ghost predicate SchemaOk(cat: Catalog, columns: seq<Column>, heapTypes: seq<Option<Type>>) {
    && |columns| == |heapTypes| > 0
    && (forall i :: 0 <= i < |columns| ==>
          && columns[i].position == i && columns[i].typeOid in cat.types
          && heapTypes[i] == Some(ColumnType(cat, columns[i])))
    && (forall i, j :: 0 <= i < j < |columns| ==> columns[i].oid != columns[j].oid)
    && (forall c :: c in cat.columns ==> cat.columns[c] in columns)
  }

  lemma ColumnPlace(cat: Catalog, columns: seq<Column>, heapTypes: seq<Option<Type>>, c: string)
    requires SchemaOk(cat, columns, heapTypes) && c in cat.columns
    ensures ColPos(columns, cat.columns[c].oid) == cat.columns[c].position < |columns|
    ensures columns[cat.columns[c].position] == cat.columns[c]
  {
    var i :| 0 <= i < |columns| && columns[i] == cat.columns[c];
  }

  lemma SchemaIsCatalog(cat: Catalog, columns: seq<Column>, heapTypes: seq<Option<Type>>)
    requires SchemaOk(cat, columns, heapTypes)
    ensures CatalogOk(cat, |columns|)
    ensures forall c :: c in cat.columns ==> ColPos(columns, cat.columns[c].oid) == cat.columns[c].position < |columns|
  {
    hide SchemaOk, ColPos;
    forall c | c in cat.columns
      ensures ColPos(columns, cat.columns[c].oid) == cat.columns[c].position < |columns| && columns[cat.columns[c].position] == cat.columns[c]
    {
      ColumnPlace(cat, columns, heapTypes, c);
    }
  }

  lemma SchemaWidth(cat: Catalog, columns: seq<Column>, heapTypes: seq<Option<Type>>)
    requires SchemaOk(cat, columns, heapTypes)
    ensures |columns| == |heapTypes|
  {
  }

  lemma StoredRowMatches(cat: Catalog, columns: seq<Column>, heapTypes: seq<Option<Type>>, row: Row)
    requires SchemaOk(cat, columns, heapTypes) && |row| == |columns| && SerializedRow(row, heapTypes).Ok?
    ensures RowMatches(row, cat)
    ensures forall i :: 0 <= i < |columns| ==>
      columns[i].typeOid in cat.types && row[i].HasType(ColumnType(cat, columns[i])) && (row[i].Varchar? ==> |row[i].s| <= MAX_VARCHAR)
  {
    SerializedHasTypes(row, heapTypes);
    forall c | c in cat.columns ensures
      && cat.columns[c].position < |row|
      && cat.columns[c].typeOid in cat.types
      && ValueType(row[cat.columns[c].position]) == ToExprType(cat.types[cat.columns[c].typeOid])
    {
      var i :| 0 <= i < |columns| && columns[i] == cat.columns[c];
    }
  }

  lemma EqualityFits(pred: Resolved, cat: Catalog)
    requires WellTyped(pred, cat) && ExtractEquality(pred).Some?
    ensures var (col, key) := ExtractEquality(pred).value;
      col in cat.columns.Values && col.typeOid in cat.types && key.HasType(ColumnType(cat, col))
  {
  }

  // ----- The indexes -----

  /** The index is sound and holds exactly the pairs (row[column], tid) of the rows. */
  ghost predicate IndexOk(def: IndexDef, idx: Index, rows: Table, cat: Catalog, columns: seq<Column>)
    reads idx.Obj()
  {
    var pos := ColPos(columns, def.columnOid);
    && idx.Ok() && idx.IsBuilt() && idx.Kind() == def.kind
    && pos < |columns| && columns[pos].typeOid in cat.types && idx.KeyType() == ColumnType(cat, columns[pos])
    && Agrees(idx.Log(), rows, pos) && |idx.Log()| == |rows|
  }

  /** One more row keeps a hash index within its directory. */
  ghost predicate RoomFor(def: IndexDef, rows: Table) {
    def.kind.HashIndex? ==> |rows| < HashPlacement.MAX_RECORDS
  }

  /** A hash index over all the rows is within its directory. */
  ghost predicate RoomForAll(def: IndexDef, rows: Table) {
    def.kind.HashIndex? ==> |rows| <= HashPlacement.MAX_RECORDS
  }

  /** The index takes the new row: writing its pair stays within the pages. */
  ghost predicate TakesRow(def: IndexDef, idx: Index, columns: seq<Column>, values: Row)
    reads idx.Obj()
  {
    var pos := ColPos(columns, def.columnOid);
    idx.Ok() && pos < |values| && idx.Takes(values[pos])
  }

  /** Some value of the column is in more rows than one INT64 key can have TIDs. */
  ghost predicate Repeats(rows: Table, pos: nat) {
    exists t :: t in rows && pos < |rows[t]| && |RowsWith(rows, pos, rows[t][pos])| > BTreeInt64.MAX_TIDS
  }

  /** Which rows an index takes: a hash index every row, and a B+tree over INT64 every row whose value
      fewer than 1357 rows have. */
  lemma TakesUnlessRepeated(def: IndexDef, idx: Index, rows: Table, cat: Catalog, columns: seq<Column>, values: Row)
    requires IndexOk(def, idx, rows, cat, columns) && |values| == |columns|
    requires values[ColPos(columns, def.columnOid)].HasType(idx.KeyType())
    ensures def.kind.HashIndex? ==> TakesRow(def, idx, columns, values)
    ensures var pos := ColPos(columns, def.columnOid);
      def.kind.BTreeIndex? && values[pos].Int64? ==>
        (TakesRow(def, idx, columns, values) <==> |RowsWith(rows, pos, values[pos])| < BTreeInt64.MAX_TIDS)
  {
    hide Agrees, RowsWith, Index.Ok, Index.Log, Index.Obj, Index.Takes, TidsOf, ColPos;
    var pos := ColPos(columns, def.columnOid);
    AgreesCounts(idx.Log(), rows, pos, values[pos]);
    idx.TakesUnlessFull(values[pos]);
  }

  /** During a backfill each next row has room. */
  lemma BackfillHasRoom(def: IndexDef, rows: Table, tids: seq<Tid>, n: nat)
    requires n < |tids| && ScansOnce(tids, rows) && RoomForAll(def, rows)
    ensures tids[n] in rows && RoomFor(def, Scanned(tids, n, rows))
  {
    ScannedGrows(tids, n, rows);
    assert |Scanned(tids, n + 1, rows)| == |Scanned(tids, n, rows)| + 1;
    SubsetCardinality(Scanned(tids, n + 1, rows).Keys, rows.Keys);
  }

  lemma IndexAllocated(idx: Index)
    ensures allocated(idx.Obj())
  {
  }

  lemma EmptyIndexOk(def: IndexDef, idx: Index, cat: Catalog, columns: seq<Column>)
    requires idx.Ok() && idx.IsBuilt() && idx.Kind() == def.kind && idx.Log() == []
    requires ColPos(columns, def.columnOid) < |columns| && columns[ColPos(columns, def.columnOid)].typeOid in cat.types
    requires idx.KeyType() == ColumnType(cat, columns[ColPos(columns, def.columnOid)])
    ensures IndexOk(def, idx, map[], cat, columns)
  {
    hide Index.Ok, Index.Log, Index.Obj, Agrees;
    AgreesOnNothing(ColPos(columns, def.columnOid));
  }

  /** Index names are unique, and each open index is an object of its own. */
  ghost predicate Named(indexes: seq<IndexDef>, loaded: map<string, Index>) {
    && (forall i, j :: 0 <= i < j < |indexes| ==> indexes[i].name != indexes[j].name)
    && (forall i :: 0 <= i < |indexes| ==> indexes[i].name in loaded)
    && (forall n :: n in loaded ==> exists i :: 0 <= i < |indexes| && indexes[i].name == n)
    && (forall a, b :: a in loaded && b in loaded && a != b ==> loaded[a].Obj() != loaded[b].Obj())
  }

  ghost function ObjectsOf(loaded: map<string, Index>): set<object> {
    set n | n in loaded :: loaded[n].Obj()
  }

  lemma NamedGrows(indexes: seq<IndexDef>, loaded: map<string, Index>, def: IndexDef, idx: Index)
    requires Named(indexes, loaded) && idx.Obj() !in ObjectsOf(loaded)
    requires forall i :: 0 <= i < |indexes| ==> indexes[i].name != def.name
    ensures Named(indexes + [def], loaded[def.name := idx]) && def.name !in loaded
    ensures ObjectsOf(loaded[def.name := idx]) == ObjectsOf(loaded) + {idx.Obj()}
  {
    hide Index.Obj;
    var indexes', loaded' := indexes + [def], loaded[def.name := idx];
    assert indexes'[|indexes|] == def;
    forall n | n in loaded' ensures exists i :: 0 <= i < |indexes'| && indexes'[i].name == n {
      if n != def.name {
        var i :| 0 <= i < |indexes| && indexes[i].name == n;
        assert indexes'[i].name == n;
      }
    }
    forall n | n in loaded ensures loaded[n].Obj() in ObjectsOf(loaded) && loaded[n].Obj() in ObjectsOf(loaded') {
      assert loaded'[n].Obj() in ObjectsOf(loaded');
    }
    assert loaded'[def.name].Obj() in ObjectsOf(loaded');
  }

  /** What an INSERT statement comes to. */
  datatype Outcome = Inserted(tid: Tid) | Refused(error: HeapError) | Panicked

  /** What a CREATE INDEX statement comes to. */
  datatype Creation = Created | NameTaken | FillPanicked

  /** The row can be serialized, and its record and slot fit an empty page. */
  ghost predicate HeapTakes(values: Row, types: seq<Option<Type>>)
    requires |values| == |types|
  {
    SerializedRow(values, types).Ok? && HeapPages.SLOT_SIZE + |SerializedRow(values, types).value| <= HeapPages.EMPTY_SPACE
  }

  class Database {
    const catalog: Catalog
    const columns: seq<Column>
    const heap: TableHeap
    const hashOf: Value -> nat
    /** The catalog's index definitions for the table, and the index manager's open indexes. */
    var indexes: seq<IndexDef>
    var loaded: map<string, Index>

    constructor (catalog: Catalog, columns: seq<Column>, heap: TableHeap, hashOf: Value -> nat)
      requires SchemaOk(catalog, columns, heap.columns) && heap.Valid() && heap.rows == map[]
      ensures Valid() && indexes == [] && this.heap == heap
    {
      this.catalog, this.columns, this.heap, this.hashOf := catalog, columns, heap, hashOf;
      indexes, loaded := [], map[];
    }

    /** The heap's rows are readable, and every index holds exactly their pairs. */
    ghost predicate Valid()
      reads this, heap, Objs()
    {
      && SchemaOk(catalog, columns, heap.columns) && heap.Valid() && AllReadable(heap.rows)
      && NamesOk() && IndexesOk(heap.rows)
    }

    ghost function Objs(): set<object>
      reads this
    {
      ObjectsOf(loaded)
    }

    ghost predicate NamesOk()
      reads this
    {
      Named(indexes, loaded)
    }

    ghost predicate IndexesOk(rows: Table)
      requires NamesOk()
      reads this, Objs()
    {
      forall i :: 0 <= i < |indexes| ==> IndexOk(indexes[i], loaded[indexes[i].name], rows, catalog, columns)
    }

    /** One index gains the new pair. */
    method InsertIntoIndex(def: IndexDef, idx: Index, values: Row, tid: Tid, ghost rows: Table) returns (ok: bool)
      requires IndexOk(def, idx, rows, catalog, columns) && RoomFor(def, rows)
      requires tid !in rows && |values| == |columns|
      requires forall i :: 0 <= i < |columns| ==>
        && columns[i].typeOid in catalog.types && values[i].HasType(ColumnType(catalog, columns[i]))
        && (values[i].Varchar? ==> |values[i].s| <= MAX_VARCHAR)
      modifies idx.Obj()
      ensures ok <==> old(TakesRow(def, idx, columns, values))
      ensures ok ==> IndexOk(def, idx, rows[tid := values], catalog, columns)
      ensures ok ==> idx.Log() == old(idx.Log()) + [Entry(values[ColPos(columns, def.columnOid)], tid)]
    {
      hide Agrees, RowsWith, Index.Ok, Index.Log, Index.Obj, Index.Takes, TidsOf, ColPos;
      var colPos := ColPos(columns, def.columnOid);
      AgreesCounts(idx.Log(), rows, colPos, values[colPos]);
      AgreesGains(idx.Log(), rows, colPos, tid, values);
      ok := idx.Insert(values[colPos], tid);
    }

    /** Distinct open indexes are distinct objects, apart from the database and its heap. */
    lemma ObjectsApart(i: int)
      requires NamesOk() && 0 <= i < |indexes|
      ensures var obj := loaded[indexes[i].name].Obj();
        && obj in Objs() && obj != this && obj != heap && allocated(obj)
        && forall j :: 0 <= j < |indexes| && j != i ==> loaded[indexes[j].name].Obj() != obj && allocated(loaded[indexes[j].name].Obj())
    {
    }

    /** Every index takes the row. */
    ghost predicate AllTake(values: Row)
      requires NamesOk()
      reads this, Objs()
    {
      forall i :: 0 <= i < |indexes| ==> TakesRow(indexes[i], loaded[indexes[i].name], columns, values)
    }

    /** The InsertExecutor's loop: every index of the table gains the new pair. Not `ok` when one panics. */
    method InsertIntoIndexes(values: Row, tid: Tid, ghost rows: Table) returns (ok: bool)
      requires NamesOk() && IndexesOk(rows) && tid !in rows && |values| == |columns|
      requires forall i :: 0 <= i < |columns| ==>
        && columns[i].typeOid in catalog.types && values[i].HasType(ColumnType(catalog, columns[i]))
        && (values[i].Varchar? ==> |values[i].s| <= MAX_VARCHAR)
      requires forall i :: 0 <= i < |indexes| ==> RoomFor(indexes[i], rows)
      modifies Objs()
      ensures ok <==> old(AllTake(values))
      ensures ok ==> NamesOk() && IndexesOk(rows[tid := values])
    {
      hide Index.Obj, IndexOk, RoomFor, Named, TakesRow, Value.HasType;
      var i := 0;
      NamesKnown();
      while i < |indexes|
        invariant indexes == old(indexes) && loaded == old(loaded)
        invariant 0 <= i <= |indexes| && NamesOk() && forall j :: 0 <= j < |indexes| ==> indexes[j].name in loaded
        invariant forall j :: 0 <= j < |indexes| ==> RoomFor(indexes[j], rows)
        invariant forall j :: 0 <= j < i ==> IndexOk(indexes[j], loaded[indexes[j].name], rows[tid := values], catalog, columns)
        invariant forall j :: 0 <= j < i ==> old(TakesRow(indexes[j], loaded[indexes[j].name], columns, values))
        invariant forall j :: i <= j < |indexes| ==> IndexOk(indexes[j], loaded[indexes[j].name], rows, catalog, columns)
        invariant forall j :: i <= j < |indexes| ==>
          (TakesRow(indexes[j], loaded[indexes[j].name], columns, values) <==> old(TakesRow(indexes[j], loaded[indexes[j].name], columns, values)))
      {
        ObjectsApart(i);
        ok := InsertIntoIndex(indexes[i], loaded[indexes[i].name], values, tid, rows);
        if !ok {
          return;
        }
        i := i + 1;
      }
      ok := true;
    }

    lemma NamesKnown()
      requires NamesOk()
      ensures this !in Objs() && heap !in Objs() && forall o :: o in Objs() ==> allocated(o)
      ensures forall i :: 0 <= i < |indexes| ==> indexes[i].name in loaded
    {
    }

    /** InsertExecutor.Next: the row goes to the heap, then its pair to every index. It fails, changing
        nothing, exactly when the heap refuses the row. It panics exactly when the heap takes the row and
        an index does not; the row is then in the heap and not in every index. */
    method Insert(values: Row) returns (r: Outcome)
      requires Valid() && |values| == |columns| && Readable(values) && heap.pagesCount < 0x7FFF_FFFF
      requires forall i :: 0 <= i < |indexes| ==> RoomFor(indexes[i], heap.rows)
      modifies heap, Objs()
      ensures r.Refused? <==> !HeapTakes(values, heap.columns)
      ensures r.Refused? ==>
        r.error == if SerializedRow(values, heap.columns).Err? then SerializedRow(values, heap.columns).error else PageFull
      ensures r.Inserted? <==> HeapTakes(values, heap.columns) && old(AllTake(values))
      ensures r.Inserted? ==> Valid() && r.tid !in old(heap.rows) && heap.rows == old(heap.rows)[r.tid := values]
      ensures r.Refused? ==> Valid() && heap.rows == old(heap.rows)
      ensures r.Panicked? ==> heap.Valid() && exists tid :: tid !in old(heap.rows) && heap.rows == old(heap.rows)[tid := values]
      ensures indexes == old(indexes)
    {
      hide Index.Obj, IndexOk, RoomFor, Named, TakesRow, Value.HasType, SchemaOk, TableHeap.Valid, SerializedRow, Readable;
      NamesKnown();
      SchemaWidth(catalog, columns, heap.columns);
      ghost var rows := heap.rows;
      var stored := heap.InsertRow(values);
      if stored.Err? {
        return Refused(stored.error);
      }
      StoredRowMatches(catalog, columns, heap.columns, values);
      var ok := InsertIntoIndexes(values, stored.value, rows);
      r := if ok then Inserted(stored.value) else Panicked;
    }

    /** analyzeInsert: as many literals as columns, strings for the columns declared VARCHAR and numbers for
        the others; the row holds what the literals denote. */
    method AnalyzeInsert(exprs: seq<Expr>) returns (r: Expressions.Result<Row>)
      requires SchemaOk(catalog, columns, heap.columns)
      ensures r.Ok? <==> |exprs| == |columns| && forall i :: 0 <= i < |columns| ==> LiteralFits(exprs[i], catalog, columns[i])
      ensures r.Ok? ==> |r.value| == |columns| && forall i :: 0 <= i < |columns| ==> Denotes(exprs[i], r.value[i])
      ensures r.Ok? ==> Readable(r.value)
      ensures r.Err? && |exprs| != |columns| ==> r.error == CountMismatch
      ensures r.Err? && |exprs| == |columns| ==> exists i ::
        && 0 <= i < |columns| && !LiteralFits(exprs[i], catalog, columns[i])
        && r.error == (if IsLiteral(exprs[i]) then Expressions.TypeMismatch else NotLiteral)
        && forall j :: 0 <= j < i ==> LiteralFits(exprs[j], catalog, columns[j])
    {
      if |exprs| != |columns| {
        return Expressions.Result.Err(CountMismatch);
      }
      var values: seq<Value> := [];
      for i := 0 to |columns|
        invariant |values| == i && Readable(values)
        invariant forall j :: 0 <= j < i ==> Denotes(exprs[j], values[j]) && LiteralFits(exprs[j], catalog, columns[j])
      {
        LiteralDenotes(exprs[i], catalog, []);
        var value := ResolveLiteral(exprs[i]);
        if value.None? {
          return Expressions.Result.Err(NotLiteral);
        }
        if ValueType(value.value) != ToExprType(catalog.types[columns[i].typeOid]) {
          return Expressions.Result.Err(Expressions.TypeMismatch);
        }
        values := values + [value.value];
      }
      return Expressions.Result.Ok(values);
    }

    /** A row as INSERT writes it is found again by its own literals: "column = literal" is true of it. */
    lemma OwnLiteralsMatch(exprs: seq<Expr>, row: Row, c: string)
      requires SchemaOk(catalog, columns, heap.columns) && c in catalog.columns && |exprs| == |row| == |columns|
      requires forall i :: 0 <= i < |columns| ==> Denotes(exprs[i], row[i]) && LiteralFits(exprs[i], catalog, columns[i])
      ensures catalog.columns[c].position < |columns|
      ensures var e := Binary(Eq, ColumnRef(c), exprs[catalog.columns[c].position]);
        StaticType(e, catalog) == Some(ExprBool) && Meaning(e, catalog, row)
    {
      ColumnPlace(catalog, columns, heap.columns, c);
      var p := catalog.columns[c].position;
      LiteralDenotes(exprs[p], catalog, row);
      DenotesOne(exprs[p], row[p], ResolveLiteral(exprs[p]).value);
      ColumnIsCell(c, catalog, row);
      assert columns[p] == catalog.columns[c];
    }

    /** INSERT of literals, then SELECT by the literal of any column: the answer contains the new row. */
    method InsertThenSelect(exprs: seq<Expr>, c: string) returns (row: Expressions.Result<Row>, outcome: Option<Outcome>, found: Expressions.Result<seq<Row>>)
      requires Valid() && c in catalog.columns && heap.pagesCount < 0x7FFF_FFFF
      requires forall i :: 0 <= i < |indexes| ==> RoomFor(indexes[i], heap.rows)
      modifies heap, Objs()
      ensures row.Ok? <==> |exprs| == |columns| && forall i :: 0 <= i < |columns| ==> LiteralFits(exprs[i], catalog, columns[i])
      ensures outcome.Some? <==> row.Ok?
      ensures row.Ok? ==> |row.value| == |columns| && forall i :: 0 <= i < |columns| ==> Denotes(exprs[i], row.value[i])
      ensures outcome.Some? && outcome.value.Inserted? ==>
        found.Ok? && row.value in found.value && heap.rows == old(heap.rows)[outcome.value.tid := row.value]
    {
      hide SchemaOk, TableHeap.Valid, Readable, IndexOk, Named, Denotes, LiteralFits, Answers, Meaning, StaticType, RoomFor;
      ghost var before := heap.rows;
      row := AnalyzeInsert(exprs);
      outcome, found := None, Expressions.Result.Err(CountMismatch);
      if row.Err? {
        return;
      }
      SchemaWidth(catalog, columns, heap.columns);
      var o := Insert(row.value);
      outcome := Some(o);
      if o.Inserted? {
        OwnLiteralsMatch(exprs, row.value, c);
        var e := Binary(Eq, ColumnRef(c), exprs[catalog.columns[c].position]);
        found := Select(e);
        MatchIsAnswered(heap.rows, e, catalog, o.tid, row.value, found.value);
      }
    }

    /** The heap only holds rows of the column types. */
    lemma StoredIsTyped(tid: Tid)
      requires SchemaOk(catalog, columns, heap.columns) && heap.Valid() && tid in heap.rows
      ensures |heap.rows[tid]| == |columns| && RowMatches(heap.rows[tid], catalog)
      ensures forall i :: 0 <= i < |columns| ==>
        && columns[i].typeOid in catalog.types && heap.rows[tid][i].HasType(ColumnType(catalog, columns[i]))
        && (heap.rows[tid][i].Varchar? ==> |heap.rows[tid][i].s| <= MAX_VARCHAR)
    {
      StoredRowMatches(catalog, columns, heap.columns, heap.rows[tid]);
    }

    /** The CreateIndexExecutor's loop: the pair of every stored row, in scan order. Not `ok` when an insert
        panics: a B+tree stops at the first pair that does not fit the tree of the pairs before it; over an
        INT64 column that is when more than 1357 rows have the same value. */
    method Backfill(def: IndexDef, idx: Index) returns (ok: bool, ghost pairs: seq<Entry>)
      requires SchemaOk(catalog, columns, heap.columns) && heap.Valid() && AllReadable(heap.rows)
      requires IndexOk(def, idx, map[], catalog, columns) && RoomForAll(def, heap.rows) && idx.Log() == []
      requires idx.Obj() != this && idx.Obj() != heap && ColPos(columns, def.columnOid) < |columns|
      modifies idx.Obj()
      ensures ok ==> IndexOk(def, idx, heap.rows, catalog, columns) && idx.Log() == pairs
      ensures ScanPairs(pairs, heap.rows, ColPos(columns, def.columnOid))
      ensures def.kind.HashIndex? ==> ok
      ensures def.kind.BTreeIndex? ==> (ok <==> BTreeModel.AllTaken(idx.KeyType(), pairs))
      ensures !ok ==> exists n :: BTreeModel.StopsAt(idx.KeyType(), pairs, n)
      ensures def.kind.BTreeIndex? && idx.KeyType() == INT64 ==> (ok <==> !Repeats(heap.rows, ColPos(columns, def.columnOid)))
      ensures heap.Valid()
    {
      hide Index.Obj, Index.Log, IndexOk, RoomFor, RoomForAll, SchemaOk, TableHeap.Valid, Readable, Value.HasType, Scanned, ColPos, TakesRow, RowsWith,
        ScanPairs, BTreeModel.AllTaken, BTreeModel.StopsAt, TableHeaps.Ascending, PairsOf, Repeats;
      ghost var rows, pos := heap.rows, ColPos(columns, def.columnOid);
      ScannedNone(rows);
      IndexAllocated(idx);
      var tids := heap.ScanTids();
      var i := 0;
      assert tids[..0] == [];
      ScannedAll(tids, rows);
      forall i | 0 <= i < |tids| ensures tids[i] in rows && pos < |rows[tids[i]]| {
        ScannedGrows(tids, i, rows);
        StoredIsTyped(tids[i]);
      }
      pairs := PairsOf(tids, rows, pos);
      ScannedInOrder(tids, rows, pos);
      while i < |tids|
        invariant 0 <= i <= |tids| && heap.Valid() && heap.rows == rows
        invariant IndexOk(def, idx, Scanned(tids, i, rows), catalog, columns) && idx.Log() == pairs[..i]
      {
        BackfillNext(def, idx, tids, i, pairs);
        var row := heap.ReadRow(tids[i]);
        ok := InsertIntoIndex(def, idx, row.value, tids[i], Scanned(tids, i, rows));
        if !ok {
          return;
        }
        i := i + 1;
      }
      ok := true;
      assert pairs[..i] == pairs;
      FilledNotRepeated(def, idx, rows);
      FilledIsTaken(def, idx, rows);
    }

    /** What the next step of a fill may rely on, and what it means when the step fails. */
    lemma BackfillNext(def: IndexDef, idx: Index, tids: seq<Tid>, n: nat, pairs: seq<Entry>)
      requires SchemaOk(catalog, columns, heap.columns) && heap.Valid() && ColPos(columns, def.columnOid) < |columns|
      requires n < |tids| && ScansOnce(tids, heap.rows) && RoomForAll(def, heap.rows)
      requires forall i :: 0 <= i < |tids| ==> tids[i] in heap.rows && ColPos(columns, def.columnOid) < |heap.rows[tids[i]]|
      requires IndexOk(def, idx, Scanned(tids, n, heap.rows), catalog, columns)
      requires pairs == PairsOf(tids, heap.rows, ColPos(columns, def.columnOid)) && idx.Log() == pairs[..n]
      ensures var row := heap.rows[tids[n]];
        && tids[n] !in Scanned(tids, n, heap.rows) && RoomFor(def, Scanned(tids, n, heap.rows)) && |row| == |columns|
        && Scanned(tids, n + 1, heap.rows) == Scanned(tids, n, heap.rows)[tids[n] := row]
        && (forall i :: 0 <= i < |columns| ==>
              && columns[i].typeOid in catalog.types && row[i].HasType(ColumnType(catalog, columns[i]))
              && (row[i].Varchar? ==> |row[i].s| <= MAX_VARCHAR))
        && (!TakesRow(def, idx, columns, row) ==>
              && def.kind.BTreeIndex? && (idx.KeyType() == INT64 ==> Repeats(heap.rows, ColPos(columns, def.columnOid)))
              && BTreeModel.StopsAt(idx.KeyType(), pairs, n) && !BTreeModel.AllTaken(idx.KeyType(), pairs))
        && pairs[..n + 1] == pairs[..n] + [Entry(row[ColPos(columns, def.columnOid)], tids[n])]
    {
      hide Index.Obj, Index.Log, IndexOk, RoomFor, RoomForAll, SchemaOk, TableHeap.Valid, Value.HasType, Scanned, ColPos, TakesRow, RowsWith,
        Repeats, BTreeModel.AllTaken, BTreeModel.StopsAt, PairsOf;
      ScannedGrows(tids, n, heap.rows);
      StoredIsTyped(tids[n]);
      BackfillHasRoom(def, heap.rows, tids, n);
      BackfillTakes(def, idx, heap.rows, tids, n);
      BackfillStops(def, idx, Scanned(tids, n, heap.rows), heap.rows[tids[n]], pairs, n);
    }

    /** A B+tree that holds the first pairs and does not take the next one stops there. */
    lemma BackfillStops(def: IndexDef, idx: Index, rows: Table, row: Row, pairs: seq<Entry>, n: nat)
      requires IndexOk(def, idx, rows, catalog, columns) && n < |pairs| && idx.Log() == pairs[..n]
      requires ColPos(columns, def.columnOid) < |row| && pairs[n].key == row[ColPos(columns, def.columnOid)]
      ensures def.kind.BTreeIndex? && !TakesRow(def, idx, columns, row) ==>
        BTreeModel.StopsAt(idx.KeyType(), pairs, n) && !BTreeModel.AllTaken(idx.KeyType(), pairs)
    {
      hide Agrees, ColPos, Index.Ok, Index.Log, Index.Obj, Index.Takes, BTreeModel.AllTaken, BTreeModel.Built,
        BTreeShape.WellFormed, Files;
      if def.kind.BTreeIndex? && !TakesRow(def, idx, columns, row) {
        idx.TakesIsBuilt(pairs[n].key);
        BTreeModel.PrefixTaken(idx.KeyType(), pairs, n);
      }
    }

    lemma FilledIsTaken(def: IndexDef, idx: Index, rows: Table)
      requires IndexOk(def, idx, rows, catalog, columns)
      ensures def.kind.BTreeIndex? ==> BTreeModel.AllTaken(idx.KeyType(), idx.Log())
    {
      hide Agrees, ColPos, BTreeModel.AllTaken;
    }

    /** A fill over a hash index or an INT64 column stops only at a value that too many rows have. */
    lemma BackfillTakes(def: IndexDef, idx: Index, rows: Table, tids: seq<Tid>, n: nat)
      requires n < |tids| && ScansOnce(tids, rows) && tids[n] in rows && IndexOk(def, idx, Scanned(tids, n, rows), catalog, columns)
      requires |rows[tids[n]]| == |columns| && ColPos(columns, def.columnOid) < |columns|
      requires forall i :: 0 <= i < |columns| ==> columns[i].typeOid in catalog.types && rows[tids[n]][i].HasType(ColumnType(catalog, columns[i]))
      ensures def.kind.HashIndex? ==> TakesRow(def, idx, columns, rows[tids[n]])
      ensures def.kind.BTreeIndex? && idx.KeyType() == INT64 && !Repeats(rows, ColPos(columns, def.columnOid)) ==>
        TakesRow(def, idx, columns, rows[tids[n]])
    {
      hide Index.Obj, Index.Ok, Index.Log, Agrees, TakesRow, ColPos, Scanned;
      var row, pos := rows[tids[n]], ColPos(columns, def.columnOid);
      IndexKey(def, idx, Scanned(tids, n, rows));
      TakesUnlessRepeated(def, idx, Scanned(tids, n, rows), catalog, columns, row);
      ScannedGrows(tids, n, rows);
      var before, after := Scanned(tids, n, rows), Scanned(tids, n + 1, rows);
      assert RowsWith(after, pos, row[pos]) == RowsWith(before, pos, row[pos]) + {tids[n]};
      ScannedWithin(tids, n + 1, rows);
      RowsWithGrows(after, rows, pos, row[pos]);
    }

    lemma ScannedWithin(tids: seq<Tid>, n: nat, rows: Table)
      requires n <= |tids|
      ensures forall t :: t in Scanned(tids, n, rows) ==> t in rows && rows[t] == Scanned(tids, n, rows)[t]
    {
    }

    lemma IndexKey(def: IndexDef, idx: Index, rows: Table)
      requires IndexOk(def, idx, rows, catalog, columns)
      ensures var pos := ColPos(columns, def.columnOid);
        idx.Kind() == def.kind && pos < |columns| && columns[pos].typeOid in catalog.types && idx.KeyType() == ColumnType(catalog, columns[pos])
    {
    }

    lemma FilledNotRepeated(def: IndexDef, idx: Index, rows: Table)
      requires IndexOk(def, idx, rows, catalog, columns)
      ensures def.kind.BTreeIndex? && idx.KeyType() == INT64 ==> !Repeats(rows, ColPos(columns, def.columnOid))
    {
      hide Index.Obj, Index.Ok, Index.Log, Agrees, ColPos, RowsWith;
      var pos := ColPos(columns, def.columnOid);
      if def.kind.BTreeIndex? && idx.KeyType() == INT64 {
        forall t | t in rows && pos < |rows[t]| ensures |RowsWith(rows, pos, rows[t][pos])| <= BTreeInt64.MAX_TIDS {
          AgreesCounts(idx.Log(), rows, pos, rows[t][pos]);
          idx.NeverOverfull(rows[t][pos]);
        }
      }
    }

    /** CreateIndexExecutor.Next: a new name gets a new index, filled from the rows already stored. When the
        fill panics the index is known already, and nothing is promised about it. */
    method CreateIndex(def: IndexDef) returns (r: Creation)
      requires Valid() && ColPos(columns, def.columnOid) < |columns| && RoomForAll(def, heap.rows)
      modifies this
      ensures heap.Valid() && heap.rows == old(heap.rows)
      ensures r.NameTaken? <==> exists i :: 0 <= i < |old(indexes)| && old(indexes)[i].name == def.name
      ensures !r.FillPanicked? ==> Valid()
      ensures def.kind.HashIndex? ==> !r.FillPanicked?
      ensures def.kind.BTreeIndex? && !r.NameTaken? ==> ColumnTypeAt(def).Some? && exists pairs ::
        && ScanPairs(pairs, heap.rows, ColPos(columns, def.columnOid))
        && (r.Created? <==> BTreeModel.AllTaken(ColumnTypeAt(def).value, pairs))
        && (r.FillPanicked? ==> exists n :: BTreeModel.StopsAt(ColumnTypeAt(def).value, pairs, n))
        && (BTreeModel.LeafBound(pairs) <= BTreePages.PAGE_CAPACITY ==> r.Created?)
      ensures def.kind.BTreeIndex? && ColumnTypeAt(def) == Some(INT64) ==>
        (r.Created? <==> !r.NameTaken? && !Repeats(heap.rows, ColPos(columns, def.columnOid)))
      ensures indexes == if r.NameTaken? then old(indexes) else old(indexes) + [def]
      ensures forall o :: o in Objs() ==> o in old(Objs()) || fresh(o)
    {
      hide Index.Obj, IndexOk, RoomForAll, SchemaOk, TableHeap.Valid, Readable, Scanned, ColPos, Named, Repeats, Index.Log,
        ScanPairs, BTreeModel.AllTaken, BTreeModel.StopsAt;
      NamesKnown();
      var known := IsKnown(def.name);
      if known {
        return NameTaken;
      }
      var idx := NewIndex(def);
      IndexKey(def, idx, map[]);
      var ok, pairs := Backfill(def, idx);
      if BTreeModel.LeafBound(pairs) <= BTreePages.PAGE_CAPACITY {
        SmallFill(def, pairs);
      }
      Register(def, idx);
      r := if ok then Created else FillPanicked;
    }

    /** Rows whose pairs fit one leaf together are all taken. */
    lemma SmallFill(def: IndexDef, pairs: seq<Entry>)
      requires SchemaOk(catalog, columns, heap.columns) && heap.Valid() && ColPos(columns, def.columnOid) < |columns|
      requires ScanPairs(pairs, heap.rows, ColPos(columns, def.columnOid)) && BTreeModel.LeafBound(pairs) <= BTreePages.PAGE_CAPACITY
      ensures ColumnTypeAt(def).Some? && BTreeModel.AllTaken(ColumnTypeAt(def).value, pairs)
    {
      hide TableHeap.Valid, SchemaOk, BTreeModel.AllTaken, BTreeModel.LeafBound, BTreeModel.OneLeaf, BTreeModel.Built;
      ColumnKnown(def);
      forall i | 0 <= i < |pairs| ensures pairs[i].key.HasType(ColumnTypeAt(def).value) {
        StoredIsTyped(pairs[i].tid);
      }
      BTreeModel.SmallRun(ColumnTypeAt(def).value, pairs);
    }

    lemma ColumnKnown(def: IndexDef)
      requires SchemaOk(catalog, columns, heap.columns) && ColPos(columns, def.columnOid) < |columns|
      ensures ColumnTypeAt(def).Some?
    {
    }

    function ColumnTypeAt(def: IndexDef): Option<Type> {
      var pos := ColPos(columns, def.columnOid);
      if pos < |columns| && columns[pos].typeOid in catalog.types then Some(ColumnType(catalog, columns[pos])) else None
    }

    method IsKnown(name: string) returns (known: bool)
      ensures known <==> exists i :: 0 <= i < |indexes| && indexes[i].name == name
    {
      known := false;
      for i := 0 to |indexes|
        invariant known <==> exists j :: 0 <= j < i && indexes[j].name == name
      {
        known := known || indexes[i].name == name;
      }
    }

    /** indexManager.GetOrCreate on a name that is not open. */
    method NewIndex(def: IndexDef) returns (idx: Index)
      requires SchemaOk(catalog, columns, heap.columns) && ColPos(columns, def.columnOid) < |columns|
      ensures fresh(idx.Obj()) && IndexOk(def, idx, map[], catalog, columns) && idx.Log() == []
    {
      var column := columns[ColPos(columns, def.columnOid)];
      var keyType := ColumnType(catalog, column);
      match def.kind
      case HashIndex =>
        var h := new DiskHashIndex(keyType, hashOf);
        idx := Hash(h);
        EmptyIndexOk(def, idx, catalog, columns);
      case BTreeIndex =>
        var b := new DiskBTreeIndex(keyType);
        idx := BTree(b);
        EmptyIndexOk(def, idx, catalog, columns);
    }

    method Register(def: IndexDef, idx: Index)
      requires NamesOk() && IndexesOk(heap.rows)
      requires forall i :: 0 <= i < |indexes| ==> indexes[i].name != def.name
      requires idx.Obj() != this && idx.Obj() !in Objs()
      modifies `indexes, `loaded
      ensures NamesOk() && indexes == old(indexes) + [def]
      ensures old(IndexOk(def, idx, heap.rows, catalog, columns)) ==> IndexesOk(heap.rows)
      ensures Objs() == old(Objs()) + {idx.Obj()}
    {
      hide IndexOk, Index.Obj;
      NamesKnown();
      IndexAllocated(idx);
      NamedGrows(indexes, loaded, def, idx);
      forall i | 0 <= i < |indexes| ensures loaded[indexes[i].name].Obj() in Objs() {}
      indexes := indexes + [def];
      loaded := loaded[def.name := idx];
    }

    ghost function Logs(): map<string, seq<Entry>>
      reads this, Objs()
    {
      map n | n in loaded :: loaded[n].Log()
    }

    ghost function KeyTypes(): map<string, Type>
      reads this
    {
      map n | n in loaded :: loaded[n].KeyType()
    }

    /** The indexes are what the optimizer's choice relies on. */
    lemma IndexesServe()
      requires Valid()
      ensures CatalogOk(catalog, |columns|) && TableMatches(heap.rows, catalog)
      ensures IndexesAgree(indexes, Logs(), heap.rows, catalog) && IndexTypes(indexes, KeyTypes(), catalog)
    {
      hide TableHeap.Valid, Agrees, Index.Ok, Index.Obj, Index.Log, RowMatches, Readable, ColPos;
      SchemaIsCatalog(catalog, columns, heap.columns);
      forall t | t in heap.rows ensures RowMatches(heap.rows[t], catalog) {
        StoredIsTyped(t);
      }
      forall i | 0 <= i < |indexes| ensures IndexOk(indexes[i], loaded[indexes[i].name], heap.rows, catalog, columns) {}
    }

    /** A chosen index is open, of the right kind, and searched by values of its key type. */
    lemma PlanFits(pred: Resolved)
      requires Valid() && WellTyped(pred, catalog) && CatalogOk(catalog, |columns|)
      ensures match ChooseBestScan(indexes, pred, catalog, |columns|)
        case SeqScan => true
        case HashIndexScan(idx, key) => idx.name in loaded && loaded[idx.name].Ok() && key.HasType(loaded[idx.name].KeyType())
        case BTreeIndexScan(idx, range) =>
          && idx.name in loaded && loaded[idx.name].Ok() && loaded[idx.name].BTree?
          && range.HasType(loaded[idx.name].KeyType()) && LogHasType(loaded[idx.name].Log(), loaded[idx.name].KeyType())
    {
      hide TableHeap.Valid, IndexOk, Index.Ok, Index.Obj, Index.Log, Readable, ColPos, ExtractRange, LogHasType, WellTyped,
        SchemaOk, Value.HasType, Range.HasType;
      match ChooseBestScan(indexes, pred, catalog, |columns|)
      case SeqScan =>
      case HashIndexScan(idx, key) =>
        var (col, val) := ExtractEquality(pred).value;
        EqualityFits(pred, catalog);
        IndexOfColumn(idx, col);
      case BTreeIndexScan(idx, range) =>
        var ri := ExtractRange(pred, catalog, |columns|).value;
        IndexOfColumn(idx, ri.column);
        OkHasType(loaded[idx.name]);
    }

    /** An index on a column of the catalog is open, sound, and keyed by the column's type. */
    lemma IndexOfColumn(idx: IndexDef, col: Column)
      requires Valid() && idx in indexes && idx.columnOid == col.oid && col in catalog.columns.Values
      ensures idx.name in loaded && loaded[idx.name].Ok() && loaded[idx.name].Kind() == idx.kind
      ensures col.typeOid in catalog.types && loaded[idx.name].KeyType() == ColumnType(catalog, col)
    {
      hide TableHeap.Valid, Agrees, Index.Ok, Index.Obj, Index.Log, Readable, ColPos, LogHasType;
      SchemaIsCatalog(catalog, columns, heap.columns);
      var c :| c in catalog.columns && catalog.columns[c] == col;
      var i :| 0 <= i < |indexes| && indexes[i] == idx;
      assert IndexOk(indexes[i], loaded[idx.name], heap.rows, catalog, columns);
    }

    /** The executor factory's scan for a plan, opened. */
    method OpenScan(plan: Plan, ghost pred: Resolved) returns (scan: Scan)
      requires Valid() && WellTyped(pred, catalog) && CatalogOk(catalog, |columns|)
      requires plan == ChooseBestScan(indexes, pred, catalog, |columns|)
      ensures fresh(scan.Obj()) && scan.Heap() == heap && scan.IsOpen() && scan.Cursor() == 0
      ensures Produces(plan, scan.Tids(), heap.rows, Logs(), KeyTypes())
      ensures Valid()
    {
      hide TableHeap.Valid, Index.Ok, Index.Obj, Index.Log, ChooseBestScan, IndexOk, SchemaOk, Readable, Named, LogHasType,
        RangeTids, TidsOf, Value.HasType, Range.HasType, WellTyped;
      PlanFits(pred);
      NamesKnown();
      match plan
      case SeqScan => scan := OpenSeqScan(heap);
      case HashIndexScan(idx, key) => scan := OpenHashScan(loaded[idx.name], key, heap);
      case BTreeIndexScan(idx, range) => scan := OpenBTreeScan(loaded[idx.name], range, heap);
    }

    /** SELECT * WHERE e, through analysis, optimization and execution: whatever indexes exist, the
        answer is the rows on which the predicate is true. */
    method Select(e: Expr) returns (r: Expressions.Result<seq<Row>>)
      requires Valid()
      ensures r.Ok? <==> StaticType(e, catalog) == Some(ExprBool)
      ensures r.Err? ==>
        if StaticType(e, catalog).Some? then r.error == WhereNotBool
        else exists i :: FirstFault(Parts(e), catalog, r.error, i)
      ensures r.Ok? ==> Answers(r.value, heap.rows, e, catalog)
      ensures r.Ok? ==> forall row :: multiset(r.value)[row] == |Matches(heap.rows, e, catalog, row)|
    {
      hide TableHeap.Valid, Index.Ok, Index.Obj, Index.Log, ChooseBestScan, IndexOk, SchemaOk, Readable, Named, WellTyped,
        Produces, IndexesAgree, IndexTypes, Answers, Answer, Scan.Obj, Scan.Tids, Scan.Cursor, Scan.IsOpen, Scan.Heap, ResolveExpr,
        FirstFault, StaticType, Parts, Faultless;
      ResolvesIffTyped(e, catalog);
      FirstFaultWins(e, catalog);
      var resolved := ResolveExpr(e, catalog);
      if resolved.Err? {
        return Expressions.Result.Err(resolved.error);
      }
      var pred := resolved.value;
      if pred.exprType != ExprBool {
        return Expressions.Result.Err(WhereNotBool);
      }
      NamesKnown();
      IndexesServe();
      ResolvedIsWellTyped(e, catalog);
      var plan := ChooseBestScan(indexes, pred, catalog, |columns|);
      var scan := OpenScan(plan, pred);
      ChosenPlanAnswers(e, indexes, catalog, |columns|, scan.Tids(), heap.rows, Logs(), KeyTypes());
      scan.Apart();
      var filter := new FilterExecutor(scan, pred);
      var result := Execute(filter);
      AnswersMatch(result, heap.rows, e, catalog);
      return Expressions.Result.Ok(result);
    }
  }

  /** The answer to a query: of any listing of the table, the rows on which the predicate is true. */
  ghost predicate Answers(result: seq<Row>, rows: Table, e: Expr, cat: Catalog) {
    forall listing :: ScansOnce(listing, rows) && Stored(listing, rows) ==>
      multiset(result) == multiset(RowsOf(Satisfying(listing, rows, e, cat), rows))
  }

  /** Each row is answered as often as it is stored, if the predicate is true of it, and no other row. */
  lemma AnswersMatch(result: seq<Row>, rows: Table, e: Expr, cat: Catalog)
    requires Answers(result, rows, e, cat)
    ensures forall row :: multiset(result)[row] == |Matches(rows, e, cat, row)|
  {
    hide Matches, Satisfying, RowsOf, Stored;
    ListingExists(rows);
    var listing :| ScansOnce(listing, rows) && Stored(listing, rows);
    forall row ensures multiset(result)[row] == |Matches(rows, e, cat, row)| {
      ListedAreMatches(listing, rows, e, cat, row);
    }
  }

  lemma MatchIsAnswered(rows: Table, e: Expr, cat: Catalog, tid: Tid, row: Row, result: seq<Row>)
    requires tid in rows && rows[tid] == row && Meaning(e, cat, row)
    requires multiset(result)[row] == |Matches(rows, e, cat, row)|
    ensures row in result
  {
    assert tid in Matches(rows, e, cat, row);
    assert row in multiset(result);
  }

  /** A string literal for a column declared VARCHAR, a number for any other. */
  ghost predicate LiteralFits(e: Expr, cat: Catalog, c: Column)
    requires c.typeOid in cat.types
  {
    if cat.types[c.typeOid] == "VARCHAR" then e.StringLiteral? else e.IntLiteral?
  }

  lemma ChosenPlanAnswers(e: Expr, indexes: seq<IndexDef>, cat: Catalog, width: nat, tids: seq<Tid>,
                          rows: Table, logs: map<string, seq<Entry>>, types: map<string, Type>)
    requires ResolveExpr(e, cat).Ok? && ResolveExpr(e, cat).value.exprType == ExprBool
    requires CatalogOk(cat, width) && TableMatches(rows, cat) && WellTyped(ResolveExpr(e, cat).value, cat)
    requires IndexesAgree(indexes, logs, rows, cat) && IndexTypes(indexes, types, cat)
    requires Produces(ChooseBestScan(indexes, ResolveExpr(e, cat).value, cat, width), tids, rows, logs, types)
    ensures Stored(tids, rows) && Answers(Answer(tids, rows, ResolveExpr(e, cat).value), rows, e, cat)
  {
    hide ChooseBestScan, ResolveExpr, Produces, IndexesAgree, IndexTypes, WellTyped, Complete;
    var pred := ResolveExpr(e, cat).value;
    ChosenScanComplete(indexes, pred, cat, width, tids, rows, logs, types);
    CompleteIsStored(tids, rows, pred);
    forall listing | ScansOnce(listing, rows) && Stored(listing, rows)
      ensures multiset(Answer(tids, rows, pred)) == multiset(RowsOf(Satisfying(listing, rows, e, cat), rows))
    {
      PlanEquivalence(indexes, pred, cat, width, tids, listing, rows, logs, types);
      FilterIsMeaning(listing, rows, e, cat);
    }
  }

  method OpenSeqScan(heap: TableHeap) returns (scan: Scan)
    requires heap.Valid()
    ensures fresh(scan.Obj()) && scan.Heap() == heap && scan.IsOpen() && scan.Cursor() == 0
    ensures ScansOnce(scan.Tids(), heap.rows)
  {
    var s := new SeqScanExecutor(heap);
    s.Open();
    scan := Seq(s);
  }

  method OpenHashScan(idx: Index, key: Value, heap: TableHeap) returns (scan: Scan)
    requires idx.Ok() && key.HasType(idx.KeyType())
    ensures fresh(scan.Obj()) && scan.Heap() == heap && scan.IsOpen() && scan.Cursor() == 0
    ensures multiset(scan.Tids()) == multiset(TidsOf(idx.Log(), key))
  {
    hide Index.Ok, Index.Obj, Index.Log, TidsOf;
    IndexAllocated(idx);
    var h := new HashIndexScanExecutor(idx, key, heap);
    h.Open();
    scan := ByHash(h);
  }

  method OpenBTreeScan(idx: Index, range: Range, heap: TableHeap) returns (scan: Scan)
    requires idx.Ok() && idx.BTree? && range.HasType(idx.KeyType()) && LogHasType(idx.Log(), idx.KeyType())
    ensures fresh(scan.Obj()) && scan.Heap() == heap && scan.IsOpen() && scan.Cursor() == 0
    ensures scan.Tids() == RangeTids(idx.Log(), range, idx.KeyType())
  {
    hide Index.Ok, Index.Obj, Index.Log, LogHasType, RangeTids;
    IndexAllocated(idx);
    var b := new BTreeIndexScanExecutor(idx, range, heap);
    var ok := b.Open();
    scan := ByBTree(b);
  }

  lemma OkHasType(idx: Index)
    requires idx.Ok()
    ensures LogHasType(idx.Log(), idx.KeyType())
  {
    hide BTreeKept.Kept, BTreeShape.WellFormed, HashPages.StoreOk, HashPlacement.Placed, HashPlacement.MetaOk;
  }
}
