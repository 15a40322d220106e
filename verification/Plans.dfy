/** Plan equivalence: whatever access path is chosen, the residual filter gives the sequential answer. */
module Plans {
  import opened Values
  import opened IndexLog
  import opened Expressions
  import opened Optimizer

  type Table = map<Tid, Row>

  /** The index holds exactly the pairs (row[pos], tid) of the table. */
  ghost predicate Agrees(log: seq<Entry>, rows: Table, pos: nat) {
    forall k, t :: multiset(TidsOf(log, k))[t] == if t in rows && pos < |rows[t]| && rows[t][pos] == k then 1 else 0
  }

  /** Every row of the table once. */
  ghost predicate ScansOnce(tids: seq<Tid>, rows: Table) {
    forall t :: multiset(tids)[t] == if t in rows then 1 else 0
  }

  predicate Accepts(pred: Resolved, row: Row) {
    EvalBool(pred, row) == Truth(true)
  }

  predicate Stored(tids: seq<Tid>, rows: Table) {
    forall i :: 0 <= i < |tids| ==> tids[i] in rows
  }

  function RowsOf(tids: seq<Tid>, rows: Table): (r: seq<Row>)
    requires Stored(tids, rows)
  {
    seq(|tids|, i requires 0 <= i < |tids| => rows[tids[i]])
  }

  /** What the Filter lets through, in scan order. */
  function Filtered(tids: seq<Tid>, rows: Table, pred: Resolved): (r: seq<Tid>)
    requires Stored(tids, rows)
    ensures Stored(r, rows)
  {
    if tids == [] then []
    else
      var before, last := Filtered(tids[..|tids| - 1], rows, pred), tids[|tids| - 1];
      if Accepts(pred, rows[last]) then before + [last] else before
  }

  /** The rows a plan answers: its scan's rows under the residual filter. */
  function Answer(tids: seq<Tid>, rows: Table, pred: Resolved): seq<Row>
    requires Stored(tids, rows)
  {
    RowsOf(Filtered(tids, rows, pred), rows)
  }

  lemma {:induction false} FilteredCounts(tids: seq<Tid>, rows: Table, pred: Resolved, t: Tid)
    requires Stored(tids, rows)
    ensures multiset(Filtered(tids, rows, pred))[t] == if t in rows && Accepts(pred, rows[t]) then multiset(tids)[t] else 0
  {
    hide Accepts;
    if tids == [] {
    } else {
      var n := |tids| - 1;
      FilteredCounts(tids[..n], rows, pred, t);
      assert tids == tids[..n] + [tids[n]];
    }
  }

  function Cut<T>(s: seq<T>, i: nat): seq<T>
    requires i < |s|
  {
    s[..i] + s[i + 1..]
  }

  lemma CutBag<T>(s: seq<T>, i: nat)
    requires i < |s|
    ensures multiset(s) == multiset(Cut(s, i)) + multiset{s[i]}
  {
    assert s == s[..i] + [s[i]] + s[i + 1..];
  }

  lemma CutStored(s: seq<Tid>, rows: Table, i: nat)
    requires Stored(s, rows) && i < |s|
    ensures Stored(Cut(s, i), rows)
  {
  }

  lemma RowsOfCut(s: seq<Tid>, rows: Table, i: nat)
    requires Stored(s, rows) && i < |s|
    ensures Stored(Cut(s, i), rows) && |RowsOf(s, rows)| == |s|
    ensures RowsOf(Cut(s, i), rows) == Cut(RowsOf(s, rows), i) && RowsOf(s, rows)[i] == rows[s[i]]
  {
  }

  lemma NoRows(rows: Table)
    ensures Stored([], rows) && RowsOf([], rows) == []
  {
  }

  /** Rows are read per TID, so equal bags of TIDs give equal bags of rows. */
  lemma {:induction false} SameBagSameRows(a: seq<Tid>, b: seq<Tid>, rows: Table)
    requires Stored(a, rows) && Stored(b, rows) && multiset(a) == multiset(b)
    ensures multiset(RowsOf(a, rows)) == multiset(RowsOf(b, rows))
  {
    hide RowsOf, Stored;
    if a == [] {
      assert |multiset(b)| == 0;
      NoRows(rows);
    } else {
      var n := |a| - 1;
      assert Cut(a, n) == a[..n];
      CutBag(a, n);
      assert a[n] in multiset(b);
      var i :| 0 <= i < |b| && b[i] == a[n];
      CutBag(b, i);
      assert multiset(Cut(b, i)) == multiset(b) - multiset{b[i]};
      CutStored(a, rows, n);
      CutStored(b, rows, i);
      SameBagSameRows(a[..n], Cut(b, i), rows);
      RowsOfCut(a, rows, n);
      RowsOfCut(b, rows, i);
      CutBag(RowsOf(a, rows), n);
      CutBag(RowsOf(b, rows), i);
    }
  }

  // ----- What each scan returns -----

  ghost function Cell(rows: Table, t: Tid, pos: nat): Option<Value> {
    if t in rows && pos < |rows[t]| then Some(rows[t][pos]) else None
  }

  lemma {:induction false} GatherCounts(log: seq<Entry>, rows: Table, pos: nat, ks: seq<Value>, t: Tid)
    requires Agrees(log, rows, pos) && StrictlyAscending(ks)
    ensures multiset(Gather(log, ks))[t] == if Cell(rows, t, pos).Some? && Cell(rows, t, pos).value in ks then 1 else 0
  {
    hide TidsOf;
    if ks == [] {
    } else {
      var n := |ks| - 1;
      GatherCounts(log, rows, pos, ks[..n], t);
      assert ks == ks[..n] + [ks[n]];
      assert ks[n] !in ks[..n];
      assert multiset(TidsOf(log, ks[n]))[t] == if Cell(rows, t, pos) == Some(ks[n]) then 1 else 0;
    }
  }

  /** A range scan returns each row whose cell lies in the range once, and no other. */
  lemma RangeScanReturns(log: seq<Entry>, rows: Table, pos: nat, r: Range, ty: Type, t: Tid)
    requires Agrees(log, rows, pos) && LogHasType(log, ty) && r.HasType(ty)
    ensures multiset(RangeTids(log, r, ty))[t] ==
      if Cell(rows, t, pos).Some? && Cell(rows, t, pos).value.HasType(ty) && r.Contains(Cell(rows, t, pos).value) then 1 else 0
  {
    hide TidsOf;
    var ks := Ascending(KeysInRange(log, r, ty), ty);
    GatherCounts(log, rows, pos, ks, t);
    var cell := Cell(rows, t, pos);
    if cell.Some? {
      assert multiset(TidsOf(log, cell.value))[t] == 1;
      assert t in TidsOf(log, cell.value);
      TidsOfNonempty(log, cell.value);
      assert cell.value in KeysOf(log);
    }
  }

  /** The TIDs a scan node may produce. */
  ghost predicate Produces(plan: Plan, tids: seq<Tid>, rows: Table, logs: map<string, seq<Entry>>, types: map<string, Type>) {
    match plan
    case SeqScan => ScansOnce(tids, rows)
    case HashIndexScan(idx, key) => idx.name in logs && multiset(tids) == multiset(TidsOf(logs[idx.name], key))
    case BTreeIndexScan(idx, range) =>
      && idx.name in logs && idx.name in types && LogHasType(logs[idx.name], types[idx.name]) && range.HasType(types[idx.name])
      && tids == RangeTids(logs[idx.name], range, types[idx.name])
  }

  /** Every index of the table agrees with it, on the column it was created for. */
  ghost predicate IndexesAgree(indexes: seq<IndexDef>, logs: map<string, seq<Entry>>, rows: Table, cat: Catalog) {
    forall i, c :: 0 <= i < |indexes| && c in cat.columns && cat.columns[c].oid == indexes[i].columnOid ==>
      indexes[i].name in logs && Agrees(logs[indexes[i].name], rows, cat.columns[c].position)
  }

  ghost predicate TableMatches(rows: Table, cat: Catalog) {
    forall t :: t in rows ==> RowMatches(rows[t], cat)
  }

  /** Every row the predicate accepts is scanned, once. */
  ghost predicate Complete(tids: seq<Tid>, rows: Table, pred: Resolved) {
    && (forall t :: t in multiset(tids) ==> t in rows)
    && (forall t :: t in rows && Accepts(pred, rows[t]) ==> multiset(tids)[t] == 1)
  }

  lemma HashScanComplete(idx: IndexDef, pred: Resolved, col: Column, key: Value, tids: seq<Tid>,
                         rows: Table, log: seq<Entry>, cat: Catalog)
    requires WellTyped(pred, cat) && TableMatches(rows, cat) && Agrees(log, rows, col.position)
    requires ExtractEquality(pred) == Some((col, key)) && multiset(tids) == multiset(TidsOf(log, key))
    ensures Complete(tids, rows, pred)
  {
    hide EvalBool, TidsOf;
    forall t | t in rows && Accepts(pred, rows[t]) ensures multiset(tids)[t] == 1 {
      CellFits(col, cat, rows[t]);
      ComparisonEvaluates(pred.op, pred.left, pred.right, pred.exprType, rows[t]);
      assert multiset(TidsOf(log, key))[t] == if rows[t][col.position] == key then 1 else 0;
    }
  }

  lemma BTreeScanComplete(pred: Resolved, ri: RangeInfo, tids: seq<Tid>, rows: Table, log: seq<Entry>, ty: Type, cat: Catalog, width: nat)
    requires CatalogOk(cat, width) && WellTyped(pred, cat) && TableMatches(rows, cat) && Agrees(log, rows, ri.column.position)
    requires ExtractRange(pred, cat, width) == Some(ri) && LogHasType(log, ty) && ri.bounds.HasType(ty)
    requires ty == TypeOf(ToExprType(cat.types[ri.column.typeOid])) && tids == RangeTids(log, ri.bounds, ty)
    ensures Complete(tids, rows, pred)
  {
    hide RangeTids, ExtractRange, EvalBool, Range.Contains;
    forall t ensures t in multiset(tids) ==> t in rows {
      RangeScanReturns(log, rows, ri.column.position, ri.bounds, ty, t);
    }
    forall t | t in rows && Accepts(pred, rows[t]) ensures multiset(tids)[t] == 1 {
      RangeCovers(pred, cat, width, rows[t]);
      assert Cell(rows, t, ri.column.position) == Some(rows[t][ri.column.position]);
      RangeScanReturns(log, rows, ri.column.position, ri.bounds, ty, t);
    }
  }

  /** For an AND of comparisons of one column, a range scan returns the rows on which it is true and no other. */
  lemma RangeScanIsAnswer(pred: Resolved, c: Column, rows: Table, log: seq<Entry>, ty: Type, cat: Catalog, width: nat, t: Tid)
    requires CatalogOk(cat, width) && WellTyped(pred, cat) && TableMatches(rows, cat) && OneColumn(pred, c) && Consistent(pred, cat, width)
    requires Agrees(log, rows, c.position) && LogHasType(log, ty) && c.typeOid in cat.types && ty == TypeOf(ToExprType(cat.types[c.typeOid]))
    requires ExtractRange(pred, cat, width).Some? && ExtractRange(pred, cat, width).value.bounds.HasType(ty)
    ensures multiset(RangeTids(log, ExtractRange(pred, cat, width).value.bounds, ty))[t] == if t in rows && Accepts(pred, rows[t]) then 1 else 0
  {
    hide RangeTids, ExtractRange, EvalBool, Range.Contains, Consistent, OneColumn, Agrees;
    RangeScanReturns(log, rows, c.position, ExtractRange(pred, cat, width).value.bounds, ty, t);
    if t in rows {
      RangeIsTruth(pred, c, cat, width, rows[t]);
    }
  }

  /** Index key types are those of the indexed columns. */
  ghost predicate IndexTypes(indexes: seq<IndexDef>, types: map<string, Type>, cat: Catalog) {
    forall i, c :: 0 <= i < |indexes| && c in cat.columns && cat.columns[c].oid == indexes[i].columnOid ==>
      && cat.columns[c].typeOid in cat.types && indexes[i].name in types
      && types[indexes[i].name] == TypeOf(ToExprType(cat.types[cat.columns[c].typeOid]))
  }

  lemma ChosenScanComplete(indexes: seq<IndexDef>, pred: Resolved, cat: Catalog, width: nat, tids: seq<Tid>,
                           rows: Table, logs: map<string, seq<Entry>>, types: map<string, Type>)
    requires CatalogOk(cat, width) && WellTyped(pred, cat) && TableMatches(rows, cat)
    requires IndexesAgree(indexes, logs, rows, cat) && IndexTypes(indexes, types, cat)
    requires Produces(ChooseBestScan(indexes, pred, cat, width), tids, rows, logs, types)
    ensures Complete(tids, rows, pred)
  {
    hide ExtractRange, Agrees, Complete, RangeTids, Accepts;
    match ChooseBestScan(indexes, pred, cat, width)
    case SeqScan => ScanIsComplete(tids, rows, pred);
    case HashIndexScan(idx, key) =>
      var (col, val) := ExtractEquality(pred).value;
      assert col in cat.columns.Values;
      var c :| c in cat.columns && cat.columns[c] == col;
      var i :| 0 <= i < |indexes| && indexes[i] == idx;
      HashScanComplete(idx, pred, col, key, tids, rows, logs[idx.name], cat);
    case BTreeIndexScan(idx, range) =>
      var ri := ExtractRange(pred, cat, width).value;
      var c :| c in cat.columns && cat.columns[c] == ri.column;
      var i :| 0 <= i < |indexes| && indexes[i] == idx;
      BTreeScanComplete(pred, ri, tids, rows, logs[idx.name], types[idx.name], cat, width);
  }

  lemma ScanIsComplete(tids: seq<Tid>, rows: Table, pred: Resolved)
    requires ScansOnce(tids, rows)
    ensures Complete(tids, rows, pred)
  {
  }

  lemma CompleteIsStored(tids: seq<Tid>, rows: Table, pred: Resolved)
    requires Complete(tids, rows, pred)
    ensures Stored(tids, rows)
  {
    forall i | 0 <= i < |tids| ensures tids[i] in rows { assert tids[i] in multiset(tids); }
  }

  lemma CompleteScansAgree(a: seq<Tid>, b: seq<Tid>, rows: Table, pred: Resolved)
    requires Complete(a, rows, pred) && Complete(b, rows, pred)
    ensures Stored(a, rows) && Stored(b, rows)
    ensures multiset(Answer(a, rows, pred)) == multiset(Answer(b, rows, pred))
  {
    CompleteIsStored(a, rows, pred);
    CompleteIsStored(b, rows, pred);
    forall t ensures multiset(Filtered(a, rows, pred))[t] == multiset(Filtered(b, rows, pred))[t] {
      FilteredCounts(a, rows, pred, t);
      FilteredCounts(b, rows, pred, t);
    }
    SameBagSameRows(Filtered(a, rows, pred), Filtered(b, rows, pred), rows);
  }

  /** Plan equivalence: on every well-typed predicate and every set of agreeing indexes, the chosen scan
      under the residual filter answers the same rows, each as often, as the filter over a sequential scan. */
  lemma PlanEquivalence(indexes: seq<IndexDef>, pred: Resolved, cat: Catalog, width: nat, tids: seq<Tid>, scan: seq<Tid>,
                        rows: Table, logs: map<string, seq<Entry>>, types: map<string, Type>)
    requires CatalogOk(cat, width) && WellTyped(pred, cat) && TableMatches(rows, cat)
    requires IndexesAgree(indexes, logs, rows, cat) && IndexTypes(indexes, types, cat)
    requires Produces(ChooseBestScan(indexes, pred, cat, width), tids, rows, logs, types)
    requires ScansOnce(scan, rows)
    ensures Stored(tids, rows) && Stored(scan, rows)
    ensures multiset(Answer(tids, rows, pred)) == multiset(Answer(scan, rows, pred))
  {
    ChosenScanComplete(indexes, pred, cat, width, tids, rows, logs, types);
    ScanIsComplete(scan, rows, pred);
    CompleteScansAgree(tids, scan, rows, pred);
  }

  // ----- In terms of the predicate's meaning -----

  /** The TIDs of the rows on which the predicate is true, in scan order. */
  ghost function Satisfying(tids: seq<Tid>, rows: Table, e: Expr, cat: Catalog): (r: seq<Tid>)
    requires Stored(tids, rows)
    ensures Stored(r, rows)
  {
    if tids == [] then []
    else
      var before, last := Satisfying(tids[..|tids| - 1], rows, e, cat), tids[|tids| - 1];
      if Meaning(e, cat, rows[last]) then before + [last] else before
  }

  lemma {:induction false} FilterIsMeaning(tids: seq<Tid>, rows: Table, e: Expr, cat: Catalog)
    requires Stored(tids, rows) && TableMatches(rows, cat)
    requires ResolveExpr(e, cat).Ok? && ResolveExpr(e, cat).value.exprType == ExprBool
    ensures Filtered(tids, rows, ResolveExpr(e, cat).value) == Satisfying(tids, rows, e, cat)
  {
    if tids != [] {
      FilterIsMeaning(tids[..|tids| - 1], rows, e, cat);
      ResolvedEvaluates(e, cat, rows[tids[|tids| - 1]]);
    }
  }

  lemma {:induction false} SatisfyingCounts(tids: seq<Tid>, rows: Table, e: Expr, cat: Catalog, t: Tid)
    requires Stored(tids, rows)
    ensures multiset(Satisfying(tids, rows, e, cat))[t] == if t in rows && Meaning(e, cat, rows[t]) then multiset(tids)[t] else 0
  {
    hide Meaning;
    if tids != [] {
      var n := |tids| - 1;
      SatisfyingCounts(tids[..n], rows, e, cat, t);
      assert tids == tids[..n] + [tids[n]];
    }
  }

  /** The TIDs of the rows equal to `row` among `tids`. */
  ghost function Places(tids: seq<Tid>, rows: Table, row: Row): set<Tid> {
    set t | t in tids && t in rows && rows[t] == row
  }

  lemma {:induction false} RowsOfCounts(tids: seq<Tid>, rows: Table, row: Row)
    requires Stored(tids, rows) && forall t :: multiset(tids)[t] <= 1
    ensures multiset(RowsOf(tids, rows))[row] == |Places(tids, rows, row)|
  {
    hide RowsOf;
    if tids == [] {
      NoRows(rows);
      assert Places(tids, rows, row) == {};
    } else {
      var n := |tids| - 1;
      var init, last := tids[..n], tids[n];
      assert tids == init + [last];
      assert multiset(tids)[last] <= 1;
      assert last !in init;
      forall t ensures multiset(init)[t] <= 1 {
        assert multiset(tids)[t] <= 1;
      }
      RowsOfCounts(init, rows, row);
      RowsOfCut(tids, rows, n);
      assert Cut(tids, n) == init;
      CutBag(RowsOf(tids, rows), n);
      forall t ensures t in tids <==> t in init || t == last {}
      assert Places(tids, rows, row) == Places(init, rows, row) + if rows[last] == row then {last} else {};
    }
  }

  lemma {:induction false} ListingExists(rows: Table)
    ensures exists tids :: ScansOnce(tids, rows) && Stored(tids, rows)
    decreases |rows|
  {
    if rows == map[] {
      assert ScansOnce([], rows) && Stored([], rows);
    } else {
      var t :| t in rows;
      ListingExists(rows - {t});
      var tids :| ScansOnce(tids, rows - {t}) && Stored(tids, rows - {t});
      assert ScansOnce(tids + [t], rows) && Stored(tids + [t], rows);
    }
  }

  /** How many rows of the table equal `row`, if the predicate is true of it. */
  ghost function Matches(rows: Table, e: Expr, cat: Catalog, row: Row): set<Tid> {
    set t | t in rows && rows[t] == row && Meaning(e, cat, row)
  }

  lemma ListedAreMatches(listing: seq<Tid>, rows: Table, e: Expr, cat: Catalog, row: Row)
    requires ScansOnce(listing, rows) && Stored(listing, rows)
    ensures multiset(RowsOf(Satisfying(listing, rows, e, cat), rows))[row] == |Matches(rows, e, cat, row)|
  {
    hide RowsOf, Meaning;
    var tids := Satisfying(listing, rows, e, cat);
    forall t ensures multiset(tids)[t] == if t in rows && Meaning(e, cat, rows[t]) then 1 else 0 {
      SatisfyingCounts(listing, rows, e, cat, t);
    }
    RowsOfCounts(tids, rows, row);
    forall t ensures t in tids <==> t in rows && Meaning(e, cat, rows[t]) {
      assert t in tids <==> multiset(tids)[t] > 0;
    }
    assert Places(tids, rows, row) == Matches(rows, e, cat, row);
  }
}
