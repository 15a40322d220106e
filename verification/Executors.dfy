/** Scan and filter executors over the heap and the disk indexes. */
module Executors {
  import opened Values
  import opened IndexLog
  import opened Expressions
  import opened Optimizer
  import opened Plans
  import opened TableHeaps
  import opened DiskHash
  import opened DiskBTree
  import Pages
  import BTreeCascade
  import BTreeInt64
  import BTreeKept
  import BTreeModel
  import BTreeShape
  import HashPlacement

  /** The two index kinds behind one interface. */
  datatype Index = Hash(hash: DiskHashIndex) | BTree(btree: DiskBTreeIndex)
  {
    function Obj(): object {
      if Hash? then hash else btree
    }

    function Kind(): IndexKind {
      if Hash? then HashIndex else BTreeIndex
    }

    function KeyType(): Type {
      if Hash? then hash.keyType else btree.keyType
    }

    ghost function Log(): seq<Entry>
      reads Obj()
    {
      if Hash? then hash.log else btree.log
    }

    ghost predicate Ok()
      reads Obj()
    {
      if Hash? then hash.Valid() else btree.Valid() && BTreeKept.Kept(btree.View(), Pages.NO_PAGE)
    }

    /** A B+tree is the one that inserting its entries into an empty index gives. */
    ghost predicate IsBuilt()
      reads Obj()
    {
      BTree? ==> BTreeModel.AllTaken(btree.keyType, btree.log) && btree.View() == BTreeModel.Built(btree.keyType, btree.log)
    }

    /** Every page that inserting `key` writes can hold what is written to it. */
    ghost predicate Takes(key: Value)
      requires Ok()
      reads Obj()
    {
      BTree? ==> BTreeCascade.InsertFits(btree.View(), key)
    }

    /** A hash index takes every key in its bounds, and a B+tree over INT64 takes a key unless it has 1357 TIDs. */
    lemma TakesUnlessFull(key: Value)
      requires Ok() && key.HasType(KeyType())
      ensures Hash? ==> Takes(key)
      ensures BTree? && key.Int64? ==> (Takes(key) <==> |TidsOf(Log(), key)| < BTreeInt64.MAX_TIDS)
    {
      if BTree? && key.Int64? {
        btree.Int64Room(key);
      }
    }

    /** Which keys a B+tree takes is decided by the entries inserted before. */
    lemma TakesIsBuilt(key: Value)
      requires Ok() && BTree? && IsBuilt()
      ensures Takes(key) <==> BTreeModel.TreeTakes(BTreeModel.Built(KeyType(), Log()), key)
      ensures var b := BTreeModel.Built(KeyType(), Log()); BTreeShape.WellFormed(b, BTreeShape.NoPending) && Files(b.contents, Log(), KeyType())
      ensures BTreeModel.AllTaken(KeyType(), Log())
    {
    }

    lemma NeverOverfull(key: Value)
      requires Ok() && BTree? && KeyType() == INT64
      ensures |TidsOf(Log(), key)| <= BTreeInt64.MAX_TIDS
    {
      btree.TidsBound(key);
    }

    /** Not `ok` stands for the panic of a B+tree page written beyond its end. */
    method Insert(key: Value, tid: Tid) returns (ok: bool)
      requires Ok() && key.HasType(KeyType()) && HasRoom(Kind(), key, |Log()|)
      modifies Obj()
      ensures ok <==> old(Takes(key))
      ensures ok ==> Ok() && Log() == old(Log()) + [Entry(key, tid)] && (old(IsBuilt()) ==> IsBuilt())
    {
      match this
      case Hash(h) =>
        h.Insert(key, tid);
        ok := true;
      case BTree(b) =>
        ok := InsertIntoBTree(b, key, tid);
    }

    static method InsertIntoBTree(b: DiskBTreeIndex, key: Value, tid: Tid) returns (ok: bool)
      requires BTree(b).Ok() && key.HasType(b.keyType) && HasRoom(BTreeIndex, key, |b.log|)
      modifies b
      ensures ok <==> old(BTree(b).Takes(key))
      ensures ok ==> BTree(b).Ok() && b.log == old(b.log) + [Entry(key, tid)] && (old(BTree(b).IsBuilt()) ==> BTree(b).IsBuilt())
    {
      hide BTreeShape.WellFormed, BTreeKept.Kept, BTreeCascade.InsertFits, BTreeCascade.InsertSplits, BTreeCascade.InsertGrows,
        BTreeCascade.LeafTook, BTreeModel.Inserted, BTreeModel.Built, BTreeModel.AllTaken, TidsOf, Files;
      b.ShortSeparates(key);
      BTreeCascade.TreeParts(b.View(), BTreeShape.NoPending);
      BTreeModel.OneMoreTaken(b.keyType, b.log, Entry(key, tid));
      ok := b.Insert(key, tid);
    }

    method Search(key: Value) returns (tids: seq<Tid>)
      requires Ok() && key.HasType(KeyType())
      ensures multiset(tids) == multiset(TidsOf(Log(), key))
    {
      match this
      case Hash(h) => tids := h.Search(key);
      case BTree(b) => tids := b.Search(key);
    }

    /** A hash index has no order to search. */
    method RangeSearch(r: Range) returns (tids: Option<seq<Tid>>)
      requires Ok() && r.HasType(KeyType()) && LogHasType(Log(), KeyType())
      ensures tids == if Hash? then None else Some(RangeTids(Log(), r, KeyType()))
    {
      match this
      case Hash(_) => tids := None;
      case BTree(b) =>
        var found := b.RangeSearch(r);
        tids := Some(found);
    }
  }

  /** Where the state of an index after an insert is known: the hash directory is not full, and a string has
      at most 255 bytes, as every stored one. Whether the insert goes through is said by `Takes`. */
  ghost predicate HasRoom(kind: IndexKind, key: Value, entries: nat) {
    (key.Varchar? ==> |key.s| <= MAX_VARCHAR) && (kind.HashIndex? ==> entries < HashPlacement.MAX_RECORDS)
  }

  // ----- Scans -----

  datatype Step = Next(row: Row) | Done | NotOpen | Failed

  /** What reading the row of a TID gives. */
  ghost function Fetch(rows: Table, tid: Tid): Step {
    if tid in rows && Readable(rows[tid]) then Next(rows[tid]) else Failed
  }

  ghost function NextStep(isOpen: bool, tids: seq<Tid>, cursor: nat, rows: Table): Step {
    if !isOpen then NotOpen else if cursor >= |tids| then Done else Fetch(rows, tids[cursor])
  }

  class SeqScanExecutor {
    const tableHeap: TableHeap
    var tids: seq<Tid>
    var cursor: nat
    var isOpen: bool

    constructor (tableHeap: TableHeap)
      ensures this.tableHeap == tableHeap && !isOpen
    {
      this.tableHeap, tids, cursor, isOpen := tableHeap, [], 0, false;
    }

    method Open()
      requires tableHeap.Valid()
      modifies this
      ensures isOpen && cursor == 0 && ScansOnce(tids, tableHeap.rows) && TableHeaps.Ascending(tids)
    {
      tids := tableHeap.ScanTids();
      cursor, isOpen := 0, true;
    }

    method GetNext() returns (step: Step)
      requires tableHeap.Valid()
      modifies `cursor
      ensures step == NextStep(isOpen, tids, old(cursor), tableHeap.rows)
      ensures cursor == if isOpen && old(cursor) < |tids| then old(cursor) + 1 else old(cursor)
    {
      if !isOpen {
        return NotOpen;
      }
      if cursor >= |tids| {
        return Done;
      }
      var tid := tids[cursor];
      cursor := cursor + 1;
      var row := tableHeap.ReadRow(tid);
      return if row.Ok? then Next(row.value) else Failed;
    }

    method Close()
      modifies this
      ensures !isOpen && tids == []
    {
      isOpen, tids := false, [];
    }
  }

  class HashIndexScanExecutor {
    const idx: Index
    const searchKey: Value
    const tableHeap: TableHeap
    var tids: seq<Tid>
    var cursor: nat
    var isOpen: bool

    constructor (idx: Index, searchKey: Value, tableHeap: TableHeap)
      ensures this.idx == idx && this.searchKey == searchKey && this.tableHeap == tableHeap && !isOpen
    {
      this.idx, this.searchKey, this.tableHeap, tids, cursor, isOpen := idx, searchKey, tableHeap, [], 0, false;
    }

    method Open()
      requires idx.Ok() && searchKey.HasType(idx.KeyType())
      modifies this
      ensures isOpen && cursor == 0 && multiset(tids) == multiset(TidsOf(idx.Log(), searchKey))
    {
      tids := idx.Search(searchKey);
      cursor, isOpen := 0, true;
    }

    method GetNext() returns (step: Step)
      requires tableHeap.Valid()
      modifies `cursor
      ensures step == NextStep(isOpen, tids, old(cursor), tableHeap.rows)
      ensures cursor == if isOpen && old(cursor) < |tids| then old(cursor) + 1 else old(cursor)
    {
      if !isOpen {
        return NotOpen;
      }
      if cursor >= |tids| {
        return Done;
      }
      var tid := tids[cursor];
      cursor := cursor + 1;
      var row := tableHeap.ReadRow(tid);
      return if row.Ok? then Next(row.value) else Failed;
    }

    method Close()
      modifies this
      ensures !isOpen && tids == []
    {
      isOpen, tids := false, [];
    }
  }

  class BTreeIndexScanExecutor {
    const idx: Index
    const range: Range
    const tableHeap: TableHeap
    var tids: seq<Tid>
    var cursor: nat
    var isOpen: bool

    constructor (idx: Index, range: Range, tableHeap: TableHeap)
      ensures this.idx == idx && this.range == range && this.tableHeap == tableHeap && !isOpen
    {
      this.idx, this.range, this.tableHeap, tids, cursor, isOpen := idx, range, tableHeap, [], 0, false;
    }

    /** Fails on a hash index, which knows no ranges. */
    method Open() returns (ok: bool)
      requires idx.Ok() && range.HasType(idx.KeyType()) && LogHasType(idx.Log(), idx.KeyType())
      modifies this
      ensures ok == idx.BTree? && isOpen == (ok || old(isOpen))
      ensures ok ==> cursor == 0 && tids == RangeTids(idx.Log(), range, idx.KeyType())
    {
      var found := idx.RangeSearch(range);
      if found.None? {
        return false;
      }
      tids := found.value;
      cursor, isOpen := 0, true;
      return true;
    }

    method GetNext() returns (step: Step)
      requires tableHeap.Valid()
      modifies `cursor
      ensures step == NextStep(isOpen, tids, old(cursor), tableHeap.rows)
      ensures cursor == if isOpen && old(cursor) < |tids| then old(cursor) + 1 else old(cursor)
    {
      if !isOpen {
        return NotOpen;
      }
      if cursor >= |tids| {
        return Done;
      }
      var tid := tids[cursor];
      cursor := cursor + 1;
      var row := tableHeap.ReadRow(tid);
      return if row.Ok? then Next(row.value) else Failed;
    }

    method Close()
      modifies this
      ensures !isOpen && tids == []
    {
      isOpen, tids := false, [];
    }
  }

  /** The scan under a filter. */
  datatype Scan = Seq(s: SeqScanExecutor) | ByHash(h: HashIndexScanExecutor) | ByBTree(b: BTreeIndexScanExecutor)
  {
    function Obj(): object {
      match this case Seq(s) => s case ByHash(h) => h case ByBTree(b) => b
    }

    function Heap(): TableHeap {
      match this case Seq(s) => s.tableHeap case ByHash(h) => h.tableHeap case ByBTree(b) => b.tableHeap
    }

    /** The executor is not the heap it reads. */
    lemma Apart()
      ensures Obj() != Heap() && allocated(Obj()) && allocated(Heap())
    {
    }

    ghost function Tids(): seq<Tid>
      reads Obj()
    {
      match this case Seq(s) => s.tids case ByHash(h) => h.tids case ByBTree(b) => b.tids
    }

    ghost function Cursor(): nat
      reads Obj()
    {
      match this case Seq(s) => s.cursor case ByHash(h) => h.cursor case ByBTree(b) => b.cursor
    }

    ghost predicate IsOpen()
      reads Obj()
    {
      match this case Seq(s) => s.isOpen case ByHash(h) => h.isOpen case ByBTree(b) => b.isOpen
    }

    method GetNext() returns (step: Step)
      requires Heap().Valid()
      modifies Obj()
      ensures step == NextStep(IsOpen(), Tids(), old(Cursor()), Heap().rows)
      ensures Tids() == old(Tids()) && IsOpen() == old(IsOpen())
      ensures Cursor() == if IsOpen() && old(Cursor()) < |Tids()| then old(Cursor()) + 1 else old(Cursor())
    {
      match this
      case Seq(s) => step := s.GetNext();
      case ByHash(h) => step := h.GetNext();
      case ByBTree(b) => step := b.GetNext();
    }

    method Close()
      modifies Obj()
      ensures !IsOpen()
    {
      match this
      case Seq(s) => s.Close();
      case ByHash(h) => h.Close();
      case ByBTree(b) => b.Close();
    }
  }

  // ----- The filter -----

  /** The first accepted row at or after `from`, or the end. */
  ghost function FirstAccepted(tids: seq<Tid>, rows: Table, pred: Resolved, from: nat): (k: nat)
    requires Stored(tids, rows) && from <= |tids|
    ensures from <= k <= |tids|
    ensures k < |tids| ==> Accepts(pred, rows[tids[k]])
    ensures forall i :: from <= i < k ==> !Accepts(pred, rows[tids[i]])
    decreases |tids| - from
  {
    if from == |tids| || Accepts(pred, rows[tids[from]]) then from else FirstAccepted(tids, rows, pred, from + 1)
  }

  lemma FirstAcceptedStep(tids: seq<Tid>, rows: Table, pred: Resolved, from: nat)
    requires Stored(tids, rows) && from <= |tids|
    ensures FirstAccepted(tids, rows, pred, from) ==
      if from == |tids| || EvalBool(pred, rows[tids[from]]) == Truth(true) then from else FirstAccepted(tids, rows, pred, from + 1)
  {
  }

  ghost predicate AllReadable(rows: Table) {
    forall t :: t in rows ==> Readable(rows[t])
  }

  class FilterExecutor {
    const child: Scan
    const predicate_: Resolved
    var isOpen: bool

    constructor (child: Scan, pred: Resolved)
      ensures this.child == child && this.predicate_ == pred && !isOpen
    {
      this.child, predicate_, isOpen := child, pred, false;
    }

    /** Open, once the child is open. */
    method Open()
      modifies `isOpen
      ensures isOpen
    {
      isOpen := true;
    }

    /** Skips the child's rows up to the next accepted one. */
    method GetNext() returns (step: Step)
      requires child.Heap().Valid() && child.IsOpen() && isOpen && child.Obj() != this
      requires Stored(child.Tids(), child.Heap().rows) && AllReadable(child.Heap().rows) && child.Cursor() <= |child.Tids()|
      modifies child.Obj()
      ensures child.Tids() == old(child.Tids()) && child.IsOpen() && isOpen
      ensures var tids, k := child.Tids(), FirstAccepted(child.Tids(), child.Heap().rows, predicate_, old(child.Cursor()));
        if k == |tids| then step == Done && child.Cursor() == k
        else step == Next(child.Heap().rows[tids[k]]) && child.Cursor() == k + 1
    {
      hide TableHeap.Valid, FirstAccepted, EvalBool, Scan.Obj, Scan.Tids, Scan.Cursor, Scan.IsOpen, Scan.Heap, Readable;
      child.Apart();
      if !isOpen {
        return NotOpen;
      }
      ghost var rows, tids := child.Heap().rows, child.Tids();
      ghost var k := FirstAccepted(tids, rows, predicate_, child.Cursor());
      while true
        invariant child.Tids() == tids && child.IsOpen() && isOpen && child.Heap().Valid() && child.Heap().rows == rows
        invariant child.Cursor() <= k == FirstAccepted(tids, rows, predicate_, child.Cursor())
        decreases |tids| - child.Cursor()
      {
        FirstAcceptedStep(tids, rows, predicate_, child.Cursor());
        step := child.GetNext();
        match step
        case Next(row) =>
          if EvalBool(predicate_, row) == Truth(true) {
            return;
          }
        case _ => return;
      }
    }

    method Close()
      modifies `isOpen, child.Obj()
      ensures !isOpen
    {
      isOpen := false;
      child.Close();
    }
  }

  lemma {:induction false} FilteredSkips(tids: seq<Tid>, rows: Table, pred: Resolved, from: nat, k: nat)
    requires Stored(tids, rows) && from <= k <= |tids| && forall i :: from <= i < k ==> !Accepts(pred, rows[tids[i]])
    ensures Filtered(tids[..k], rows, pred) == Filtered(tids[..from], rows, pred)
  {
    if from < k {
      FilteredSkips(tids, rows, pred, from, k - 1);
      assert tids[..k][..k - 1] == tids[..k - 1];
    }
  }

  /** One accepted row more: the answer over a longer prefix of the scan. */
  lemma AnswerGrows(tids: seq<Tid>, rows: Table, pred: Resolved, from: nat)
    requires Stored(tids, rows) && from <= |tids|
    ensures var k := FirstAccepted(tids, rows, pred, from);
      if k == |tids| then Answer(tids, rows, pred) == Answer(tids[..from], rows, pred)
      else Answer(tids[..k + 1], rows, pred) == Answer(tids[..from], rows, pred) + [rows[tids[k]]]
  {
    var k := FirstAccepted(tids, rows, pred, from);
    FilteredSkips(tids, rows, pred, from, k);
    if k == |tids| {
      assert tids[..k] == tids;
    } else {
      assert tids[..k + 1][..k] == tids[..k];
    }
  }

  /** Draining a filter gives exactly the accepted rows of its scan, in scan order. */
  method Execute(filter: FilterExecutor) returns (result: seq<Row>)
    requires filter.child.Heap().Valid() && filter.child.IsOpen() && filter.child.Cursor() == 0 && filter.child.Obj() != filter
    requires Stored(filter.child.Tids(), filter.child.Heap().rows) && AllReadable(filter.child.Heap().rows)
    modifies filter`isOpen, filter.child.Obj()
    ensures result == Answer(old(filter.child.Tids()), filter.child.Heap().rows, filter.predicate_)
    ensures filter.child.Heap().Valid() && filter.child.Heap().rows == old(filter.child.Heap().rows)
  {
    hide TableHeap.Valid, FirstAccepted, EvalBool, Accepts, Answer, Scan.Obj, Scan.Tids, Scan.Cursor, Scan.IsOpen, Scan.Heap, Readable;
    filter.child.Apart();
    filter.Open();
    ghost var tids, rows, pred := filter.child.Tids(), filter.child.Heap().rows, filter.predicate_;
    result := [];
    AnswerNothing(tids, rows, pred);
    while true
      invariant filter.child.Heap().Valid() && filter.child.Heap().rows == rows
      invariant filter.child.IsOpen() && filter.isOpen && filter.child.Tids() == tids && filter.child.Cursor() <= |tids|
      invariant result == Answer(tids[..filter.child.Cursor()], rows, pred)
      decreases |tids| - filter.child.Cursor()
    {
      AnswerGrows(tids, rows, pred, filter.child.Cursor());
      var step := filter.GetNext();
      if !step.Next? {
        break;
      }
      result := result + [step.row];
    }
    filter.Close();
  }

  lemma AnswerNothing(tids: seq<Tid>, rows: Table, pred: Resolved)
    ensures tids[..0] == [] && Answer(tids[..0], rows, pred) == []
  {
  }
}
