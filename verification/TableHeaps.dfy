/** Rows as records of slotted pages: serialization, first-fit insertion, reading and scanning. */
module TableHeaps {
  import opened Values
  import opened Pages
  import opened Bytes
  import opened HeapPages
  import Utf8

  type Row = seq<Value>

  datatype HeapError = UnknownType | TypeMismatch | VarcharTooLong | InvalidEncoding | SliceBounds | PageFull | NoSuchRow

  datatype Result<+T> = Ok(value: T) | Err(error: HeapError)

  const MAX_VARCHAR: nat := 255

  // ----- Serialization -----

  function SerializeValue(v: Value, t: Option<Type>): Result<seq<byte>> {
    match t
    case None => Err(UnknownType)
    case Some(INT64) => if v.Int64? then Ok(BigEndian(Int64ToUint(v.n), 8)) else Err(TypeMismatch)
    case Some(VARCHAR) =>
      if !v.Varchar? then Err(TypeMismatch)
      else if |v.s| > MAX_VARCHAR then Err(VarcharTooLong)
      else Ok([|v.s|] + v.s)
  }

  function Prepend<T>(front: seq<T>, rest: Result<seq<T>>): Result<seq<T>> {
    if rest.Ok? then Ok(front + rest.value) else rest
  }

  /** The row's fields one after another, or the first field's error. */
  function SerializedRow(values: Row, types: seq<Option<Type>>): Result<seq<byte>>
    requires |values| == |types|
  {
    if types == [] then Ok([])
    else
      match SerializeValue(values[0], types[0])
      case Err(e) => Err(e)
      case Ok(b) => Prepend(b, SerializedRow(values[1..], types[1..]))
  }

  /** One field at the front of `data`, with its length. Slicing past the end is a Go panic. */
  function DeserializeField(data: seq<byte>, t: Option<Type>): (r: Result<(Value, nat)>)
    ensures r.Ok? ==> 0 < r.value.1 <= |data|
  {
    match t
    case None => Err(UnknownType)
    case Some(INT64) => if |data| < 8 then Err(SliceBounds) else Ok((Int64(UintToInt64(GetUint64(data, 0))), 8))
    case Some(VARCHAR) =>
      if |data| == 0 then Err(SliceBounds)
      else
        var n: nat := data[0];
        if |data| < 1 + n then Err(SliceBounds)
        else if !Utf8.Valid(data[1..1 + n]) then Err(InvalidEncoding)
        else Ok((Varchar(data[1..1 + n]), 1 + n))
  }

  function DeserializedRow(data: seq<byte>, types: seq<Option<Type>>): Result<Row>
    decreases |types|
  {
    if types == [] then Ok([])
    else
      match DeserializeField(data, types[0])
      case Err(e) => Err(e)
      case Ok((v, n)) => Prepend([v], DeserializedRow(data[n..], types[1..]))
  }

  /** The strings of a row are UTF-8. */
  predicate Readable(values: Row) {
    forall i :: 0 <= i < |values| && values[i].Varchar? ==> Utf8.Valid(values[i].s)
  }

  lemma FieldRoundTrip(v: Value, t: Option<Type>, rest: seq<byte>)
    requires SerializeValue(v, t).Ok?
    ensures var b := SerializeValue(v, t).value;
      DeserializeField(b + rest, t) == if v.Int64? || Utf8.Valid(v.s) then Ok((v, |b|)) else Err(InvalidEncoding)
  {
    var b := SerializeValue(v, t).value;
    if v.Int64? {
      assert (b + rest)[0..8] == b;
      GetWritten64(b + rest, 0, Int64ToUint(v.n));
    } else {
      assert (b + rest)[1..1 + |v.s|] == v.s;
    }
  }

  /** A stored row reads back as itself if and only if its strings are UTF-8; otherwise reading it fails. */
  lemma {:induction false} RowRoundTrip(values: Row, types: seq<Option<Type>>)
    requires |values| == |types| && SerializedRow(values, types).Ok?
    ensures Readable(values) ==> DeserializedRow(SerializedRow(values, types).value, types) == Ok(values)
    ensures !Readable(values) ==> DeserializedRow(SerializedRow(values, types).value, types) == Err(InvalidEncoding)
  {
    if types == [] {
    } else {
      var b := SerializeValue(values[0], types[0]).value;
      var rest := SerializedRow(values[1..], types[1..]).value;
      FieldRoundTrip(values[0], types[0], rest);
      RowRoundTrip(values[1..], types[1..]);
      assert (b + rest)[|b|..] == rest;
      assert values == [values[0]] + values[1..];
      assert Readable(values) <==> (values[0].Varchar? ==> Utf8.Valid(values[0].s)) && Readable(values[1..]) by {
        if Readable(values[1..]) && (values[0].Varchar? ==> Utf8.Valid(values[0].s)) {
          forall i | 0 <= i < |values| && values[i].Varchar? ensures Utf8.Valid(values[i].s) {
            if i > 0 { assert values[1..][i - 1] == values[i]; }
          }
        }
      }
    }
  }

  /** Only rows of the column types, with strings of at most 255 bytes, are stored. */
  lemma {:induction false} SerializedHasTypes(values: Row, types: seq<Option<Type>>)
    requires |values| == |types|
    ensures SerializedRow(values, types).Ok? <==>
      forall i :: 0 <= i < |types| ==>
        types[i].Some? && values[i].HasType(types[i].value) && (values[i].Varchar? ==> |values[i].s| <= MAX_VARCHAR)
  {
    if types != [] {
      SerializedHasTypes(values[1..], types[1..]);
      if SerializedRow(values, types).Ok? {
        forall i | 0 <= i < |types|
          ensures types[i].Some? && values[i].HasType(types[i].value) && (values[i].Varchar? ==> |values[i].s| <= MAX_VARCHAR)
        {
          if i > 0 { assert types[1..][i - 1] == types[i] && values[1..][i - 1] == values[i]; }
        }
      }
    }
  }

  /** The bytes of a row: eight for a number, one more than its length for a string. */
  function RowSize(values: Row): nat {
    if values == [] then 0 else (if values[0].Int64? then 8 else 1 + |values[0].s|) + RowSize(values[1..])
  }

  lemma {:induction false} SerializedSize(values: Row, types: seq<Option<Type>>)
    requires |values| == |types| && SerializedRow(values, types).Ok?
    ensures |SerializedRow(values, types).value| == RowSize(values)
  {
    if types != [] {
      SerializedSize(values[1..], types[1..]);
    }
  }

  /** What keeps a value from being stored in a column. */
  ghost predicate Offends(v: Value, t: Option<Type>, e: HeapError) {
    match e
    case UnknownType => t.None?
    case TypeMismatch => t.Some? && !v.HasType(t.value)
    case VarcharTooLong => t.Some? && v.HasType(t.value) && v.Varchar? && |v.s| > MAX_VARCHAR
    case _ => false
  }

  ghost predicate FirstOffender(values: Row, types: seq<Option<Type>>, e: HeapError, i: nat)
    requires |values| == |types|
  {
    i < |types| && Offends(values[i], types[i], e) && forall j, x :: 0 <= j < i ==> !Offends(values[j], types[j], x)
  }

  lemma ErrorIffOffends(v: Value, t: Option<Type>)
    ensures forall e :: SerializeValue(v, t) == Err(e) <==> Offends(v, t, e)
    ensures SerializeValue(v, t).Ok? <==> forall e :: !Offends(v, t, e)
  {
    if SerializeValue(v, t).Err? {
      assert Offends(v, t, SerializeValue(v, t).error);
    }
  }

  lemma TailOffender(values: Row, types: seq<Option<Type>>, e: HeapError, i: nat)
    requires |values| == |types| && types != [] && forall x :: !Offends(values[0], types[0], x)
    ensures FirstOffender(values[1..], types[1..], e, i) <==> FirstOffender(values, types, e, i + 1)
  {
    hide Offends;
    assert forall k :: 1 <= k < |types| ==> values[k] == values[1..][k - 1] && types[k] == types[1..][k - 1];
    if FirstOffender(values[1..], types[1..], e, i) {
      forall j, x | 0 <= j < i + 1 ensures !Offends(values[j], types[j], x) {
        assert j > 0 ==> !Offends(values[1..][j - 1], types[1..][j - 1], x);
      }
    }
    if FirstOffender(values, types, e, i + 1) {
      forall j, x | 0 <= j < i ensures !Offends(values[1..][j], types[1..][j], x) {
        assert !Offends(values[j + 1], types[j + 1], x);
      }
    }
  }

  /** The first field that cannot be stored, if any, decides the error. */
  lemma {:induction false} FirstErrorWins(values: Row, types: seq<Option<Type>>, e: HeapError)
    requires |values| == |types|
    ensures SerializedRow(values, types) == Err(e) <==> exists i :: FirstOffender(values, types, e, i)
  {
    hide SerializeValue;
    if types != [] {
      FirstErrorWins(values[1..], types[1..], e);
      ErrorIffOffends(values[0], types[0]);
      if SerializeValue(values[0], types[0]).Err? {
        if SerializedRow(values, types) == Err(e) {
          assert FirstOffender(values, types, e, 0);
        }
      } else {
        forall i: nat ensures FirstOffender(values[1..], types[1..], e, i) <==> FirstOffender(values, types, e, i + 1) {
          TailOffender(values, types, e, i);
        }
        assert !FirstOffender(values, types, e, 0);
        forall i: nat | i > 0 && FirstOffender(values, types, e, i) ensures FirstOffender(values[1..], types[1..], e, i - 1) {
          TailOffender(values, types, e, i - 1);
        }
      }
    }
  }

  method SerializeRow(values: Row, types: seq<Option<Type>>) returns (r: Result<seq<byte>>)
    requires |values| == |types|
    ensures r == SerializedRow(values, types)
  {
    var data := [];
    var i := 0;
    assert values[0..] == values && types[0..] == types;
    PrependNothing(SerializedRow(values, types));
    while i < |types|
      invariant 0 <= i <= |types|
      invariant SerializedRow(values, types) == Prepend(data, SerializedRow(values[i..], types[i..]))
    {
      assert values[i..][1..] == values[i + 1..] && types[i..][1..] == types[i + 1..];
      var field := SerializeValue(values[i], types[i]);
      if field.Err? {
        return Err(field.error);
      }
      PrependTwice(data, field.value, SerializedRow(values[i + 1..], types[i + 1..]));
      data := data + field.value;
      i := i + 1;
    }
    assert types[i..] == [] && data + [] == data;
    return Ok(data);
  }

  method DeserializeRow(data: seq<byte>, types: seq<Option<Type>>) returns (r: Result<Row>)
    ensures r == DeserializedRow(data, types)
  {
    var row := [];
    var offset := 0;
    var i := 0;
    assert data[0..] == data && types[0..] == types;
    PrependNothing(DeserializedRow(data, types));
    while i < |types|
      invariant 0 <= i <= |types| && 0 <= offset <= |data|
      invariant DeserializedRow(data, types) == Prepend(row, DeserializedRow(data[offset..], types[i..]))
    {
      assert types[i..][1..] == types[i + 1..];
      var field := DeserializeField(data[offset..], types[i]);
      if field.Err? {
        return Err(field.error);
      }
      var (v, n) := field.value;
      assert data[offset..][n..] == data[offset + n..];
      PrependTwice(row, [v], DeserializedRow(data[offset + n..], types[i + 1..]));
      row := row + [v];
      offset := offset + n;
      i := i + 1;
    }
    assert types[i..] == [] && row + [] == row;
    return Ok(row);
  }

  lemma PrependNothing<T>(rest: Result<seq<T>>)
    ensures Prepend([], rest) == rest
  {
    if rest.Ok? {
      assert [] + rest.value == rest.value;
    }
  }

  lemma PrependTwice<T>(a: seq<T>, b: seq<T>, rest: Result<seq<T>>)
    ensures Prepend(a, Prepend(b, rest)) == Prepend(a + b, rest)
  {
    if rest.Ok? {
      assert a + (b + rest.value) == (a + b) + rest.value;
    }
  }

  // ----- The heap -----

  ghost predicate Occupied(pages: map<int, seq<byte>>, pagesCount: nat, t: Tid) {
    && 0 <= t.pageID < pagesCount && t.pageID in pages && WellFormed(pages[t.pageID])
    && 0 <= t.slotID < |Records(pages[t.pageID])|
  }

  /** A record's place. */
  ghost predicate Holds(pages: map<int, seq<byte>>, pagesCount: nat, t: Tid, data: seq<byte>) {
    Occupied(pages, pagesCount, t) && Records(pages[t.pageID])[t.slotID] == data
  }

  ghost predicate PagesOk(pages: map<int, seq<byte>>, pagesCount: nat) {
    forall p :: 0 <= p < pagesCount ==> p in pages && WellFormed(pages[p])
  }

  /** The rows are exactly the records, serialized. */
  ghost predicate RowsOk(pages: map<int, seq<byte>>, pagesCount: nat, rows: map<Tid, Row>, columns: seq<Option<Type>>) {
    && (forall t :: t in rows ==>
          |rows[t]| == |columns| && SerializedRow(rows[t], columns).Ok?
          && Holds(pages, pagesCount, t, SerializedRow(rows[t], columns).value))
    && (forall t :: Occupied(pages, pagesCount, t) ==> t in rows)
  }

  lemma SlotsAreShort(s: seq<byte>)
    requires WellFormed(s)
    ensures |s| == PAGE_SIZE && |Records(s)| <= 2045 && FreeSpace(s) <= EMPTY_SPACE
  {
  }

  class TableHeap {
    /** The data type of each column; a type name the heap does not know has none. */
    const columns: seq<Option<Type>>
    /** The table's pages in an ideal page store. */
    var pages: map<int, seq<byte>>
    var pagesCount: nat
    /** The row inserted under each TID. */
    ghost var rows: map<Tid, Row>

    ghost predicate Valid()
      reads this
    {
      && pagesCount <= 0x7FFF_FFFF && columns != []
      && PagesOk(pages, pagesCount) && RowsOk(pages, pagesCount, rows, columns)
    }

    constructor (columns: seq<Option<Type>>)
      requires columns != []
      ensures Valid() && rows == map[] && this.columns == columns
    {
      this.columns := columns;
      pages, pagesCount, rows := map[], 0, map[];
    }

    /** A stored row reads back as itself exactly when its strings are UTF-8; any other TID is an error. */
    method ReadRow(tid: Tid) returns (r: Result<Row>)
      requires Valid()
      ensures tid in rows ==> r == if Readable(rows[tid]) then Ok(rows[tid]) else Err(InvalidEncoding)
      ensures tid !in rows ==> r == Err(NoSuchRow)
    {
      if !(0 <= tid.pageID < pagesCount) {
        return Err(NoSuchRow);
      }
      var page := new HeapPage.FromBuffer(tid.pageID, pages[tid.pageID]);
      var record := page.Read(tid.slotID);
      if record.ReadError? {
        return Err(NoSuchRow);
      }
      RowRoundTrip(rows[tid], columns);
      r := DeserializeRow(record.data, columns);
    }

    /** First fit: the row goes to the first page with room for it, or to a new page at the end.
        It fails, changing nothing, exactly on a row that cannot be serialized, with the error of its first
        offending field, or that fits no page. */
    method InsertRow(values: Row) returns (r: Result<Tid>)
      requires Valid() && |values| == |columns| && pagesCount < 0x7FFF_FFFF
      modifies this
      ensures Valid()
      ensures r.Ok? <==> SerializedRow(values, columns).Ok? && SLOT_SIZE + |SerializedRow(values, columns).value| <= EMPTY_SPACE
      ensures r.Err? ==> pages == old(pages) && pagesCount == old(pagesCount) && rows == old(rows)
      ensures r.Err? ==> r.error == if SerializedRow(values, columns).Err? then SerializedRow(values, columns).error else PageFull
      ensures r.Ok? ==>
        && r.value !in old(rows) && rows == old(rows)[r.value := values]
        && (r.value.pageID < old(pagesCount) ==>
              && r.value.pageID in old(pages) && |old(pages)[r.value.pageID]| == PAGE_SIZE
              && SLOT_SIZE + |SerializedRow(values, columns).value| <= FreeSpace(old(pages)[r.value.pageID]))
        && (forall p :: 0 <= p < r.value.pageID ==>
              p in old(pages) && |old(pages)[p]| == PAGE_SIZE
              && FreeSpace(old(pages)[p]) < SLOT_SIZE + |SerializedRow(values, columns).value|)
        && r.value.pageID <= old(pagesCount) && pagesCount == (if r.value.pageID == old(pagesCount) then old(pagesCount) + 1 else old(pagesCount))
    {
      hide Records, WellFormed, RowsOk, SerializedRow;
      var serialized := SerializeRow(values, columns);
      if serialized.Err? {
        return Err(serialized.error);
      }
      var data := serialized.value;
      var pageID: int := 0;
      while pageID < pagesCount
        invariant 0 <= pageID <= pagesCount
        invariant Valid() && pages == old(pages) && pagesCount == old(pagesCount) && rows == old(rows)
        invariant forall p :: 0 <= p < pageID ==>
          p in pages && |pages[p]| == PAGE_SIZE && FreeSpace(pages[p]) < SLOT_SIZE + |data|
      {
        var tid := TryInsertIntoPage(pageID, data, values);
        if tid.Ok? {
          return tid;
        }
        pageID := pageID + 1;
      }
      r := InsertIntoNewPage(data, values);
    }

    method TryInsertIntoPage(pageID: int32, data: seq<byte>, ghost values: Row) returns (r: Result<Tid>)
      requires Valid() && 0 <= pageID < pagesCount
      requires |values| == |columns| && SerializedRow(values, columns) == Ok(data)
      modifies `pages, `rows
      ensures Valid() && |old(pages)[pageID]| == PAGE_SIZE
      ensures r.Ok? <==> SLOT_SIZE + |data| <= FreeSpace(old(pages)[pageID])
      ensures r.Err? ==> pages == old(pages) && rows == old(rows) && r == Err(PageFull)
      ensures r.Ok? ==> r.value.pageID == pageID && r.value !in old(rows) && rows == old(rows)[r.value := values]
      ensures SLOT_SIZE + |data| > EMPTY_SPACE ==> r.Err?
    {
      hide Records, WellFormed, RowsOk, SerializedRow, FreeSpace;
      SlotsAreShort(pages[pageID]);
      var page := new HeapPage.FromBuffer(pageID, pages[pageID]);
      var slotID := page.Size();
      var err := page.Write(Some(data));
      if err.Some? {
        return Err(PageFull);
      }
      SlotsAreShort(page.buf[..]);
      var tid := Tid(pageID, slotID);
      RowAdded(pages, pagesCount, rows, columns, pages[pageID := page.buf[..]], pagesCount, tid, values);
      pages := pages[pageID := page.buf[..]];
      rows := rows[tid := values];
      return Ok(tid);
    }

    method InsertIntoNewPage(data: seq<byte>, ghost values: Row) returns (r: Result<Tid>)
      requires Valid() && pagesCount < 0x7FFF_FFFF
      requires |values| == |columns| && SerializedRow(values, columns) == Ok(data)
      modifies this
      ensures Valid()
      ensures r.Ok? <==> SLOT_SIZE + |data| <= EMPTY_SPACE
      ensures r.Err? ==> pages == old(pages) && pagesCount == old(pagesCount) && rows == old(rows) && r == Err(PageFull)
      ensures r.Ok? ==>
        && r.value == Tid(old(pagesCount), 0) && r.value !in old(rows) && rows == old(rows)[r.value := values]
        && pagesCount == old(pagesCount) + 1
    {
      hide Records, WellFormed, RowsOk, SerializedRow, FreeSpace;
      var pageID := pagesCount;
      var newPage := new HeapPage(pageID);
      var err := newPage.Write(Some(data));
      if err.Some? {
        return Err(PageFull);
      }
      var tid := Tid(pageID, 0);
      RowAdded(pages, pagesCount, rows, columns, pages[pageID := newPage.buf[..]], pagesCount + 1, tid, values);
      pages := pages[pageID := newPage.buf[..]];
      pagesCount := pageID + 1;
      rows := rows[tid := values];
      return Ok(tid);
    }

    /** Every TID once, by page and then by slot. */
    method ScanTids() returns (tids: seq<Tid>)
      requires Valid()
      ensures forall t :: multiset(tids)[t] == if t in rows then 1 else 0
      ensures Ascending(tids)
    {
      hide Records, WellFormed, RowsOk;
      tids := [];
      var pageID: int := 0;
      while pageID < pagesCount
        invariant 0 <= pageID <= pagesCount
        invariant Ascending(tids) && forall i :: 0 <= i < |tids| ==> tids[i].pageID < pageID
        invariant forall t :: t in tids <==> Occupied(pages, pageID, t)
      {
        SlotsAreShort(pages[pageID]);
        var page := new HeapPage.FromBuffer(pageID, pages[pageID]);
        var slotCount := page.Size();
        var slotID := 0;
        while slotID < slotCount
          invariant 0 <= slotID <= slotCount == |Records(pages[pageID])| <= 2045
          invariant Ascending(tids) && forall i :: 0 <= i < |tids| ==> Before(tids[i], pageID, slotID)
          invariant forall t :: t in tids <==> Occupied(pages, pageID, t) || (t.pageID == pageID && 0 <= t.slotID < slotID)
        {
          tids := tids + [Tid(pageID, slotID)];
          slotID := slotID + 1;
        }
        pageID := pageID + 1;
      }
      ScannedOnce(tids, pages, pagesCount, rows, columns);
    }
  }

  /** One page gained one record, the serialized row, as its last. */
  lemma RowAdded(pages: map<int, seq<byte>>, count: nat, rows: map<Tid, Row>, columns: seq<Option<Type>>,
                 pages': map<int, seq<byte>>, count': nat, tid: Tid, values: Row)
    requires PagesOk(pages, count) && RowsOk(pages, count, rows, columns)
    requires |values| == |columns| && SerializedRow(values, columns).Ok?
    requires count' == (if tid.pageID == count then count + 1 else count) && 0 <= tid.pageID <= count
    requires tid.pageID in pages' && WellFormed(pages'[tid.pageID]) && pages' == pages[tid.pageID := pages'[tid.pageID]]
    requires Records(pages'[tid.pageID]) ==
      (if tid.pageID < count then Records(pages[tid.pageID]) else []) + [SerializedRow(values, columns).value]
    requires tid.slotID + 1 == |Records(pages'[tid.pageID])|
    ensures tid !in rows
    ensures PagesOk(pages', count') && RowsOk(pages', count', rows[tid := values], columns)
  {
    hide Records, WellFormed, SerializedRow;
    assert !Occupied(pages, count, tid);
    assert tid in rows ==> Occupied(pages, count, tid);
    forall t | t in rows ensures Holds(pages', count', t, SerializedRow(rows[t], columns).value) {
      assert Holds(pages, count, t, SerializedRow(rows[t], columns).value);
    }
    forall t | Occupied(pages', count', t) ensures t in rows[tid := values] {
      if t != tid {
        assert Occupied(pages, count, t);
      }
    }
  }

  predicate Before(t: Tid, pageID: int, slotID: int) {
    t.pageID < pageID || (t.pageID == pageID && t.slotID < slotID)
  }

  predicate Ascending(tids: seq<Tid>) {
    forall i, j :: 0 <= i < j < |tids| ==> Before(tids[i], tids[j].pageID, tids[j].slotID)
  }

  lemma {:induction false} AscendingCounts(tids: seq<Tid>, t: Tid)
    requires Ascending(tids)
    ensures multiset(tids)[t] == if t in tids then 1 else 0
  {
    if tids != [] {
      var n := |tids| - 1;
      AscendingCounts(tids[..n], t);
      assert tids == tids[..n] + [tids[n]];
      assert tids[n] !in tids[..n];
    }
  }

  lemma ScannedOnce(tids: seq<Tid>, pages: map<int, seq<byte>>, pagesCount: nat, rows: map<Tid, Row>, columns: seq<Option<Type>>)
    requires Ascending(tids) && RowsOk(pages, pagesCount, rows, columns)
    requires forall t :: t in tids <==> Occupied(pages, pagesCount, t)
    ensures forall t :: multiset(tids)[t] == if t in rows then 1 else 0
  {
    forall t ensures multiset(tids)[t] == if t in rows then 1 else 0 {
      AscendingCounts(tids, t);
      assert t in rows ==> Holds(pages, pagesCount, t, SerializedRow(rows[t], columns).value);
    }
  }
}
