/** The choice of an access path: equality and range extraction over well-typed predicates. */
module Optimizer {
  import opened Values
  import opened IndexLog
  import opened Expressions

  datatype IndexKind = HashIndex | BTreeIndex

  datatype IndexDef = IndexDef(name: string, kind: IndexKind, columnOid: int)

  datatype Plan =
    | SeqScan
    | HashIndexScan(idx: IndexDef, key: Value)
    | BTreeIndexScan(idx: IndexDef, range: Range)

  /** A bounded column. */
  datatype RangeInfo = RangeInfo(column: Column, bounds: Range)

  const UNBOUNDED: Range := Range(None, false, None, false)

  // ----- Building one range -----

  function BuildEqRange(r: Range, v: Value): Range { r.(from := Some(v), to := Some(v), fromInclusive := true, toInclusive := true) }
  function BuildGtRange(r: Range, v: Value): Range { r.(from := Some(v), fromInclusive := false) }
  function BuildGteRange(r: Range, v: Value): Range { r.(from := Some(v), fromInclusive := true) }
  function BuildLtRange(r: Range, v: Value): Range { r.(to := Some(v), toInclusive := false) }
  function BuildLteRange(r: Range, v: Value): Range { r.(to := Some(v), toInclusive := true) }

  /** The operator with its operands exchanged. */
  function InvertOp(op: BinaryOp): BinaryOp {
    match op
    case Lt => Gt
    case Le => Ge
    case Gt => Lt
    case Ge => Le
    case _ => op
  }

  function TryExtractColVal(colExpr: Resolved, valExpr: Resolved): Option<(Column, Value)> {
    if colExpr.ResolvedColumn? && valExpr.Const? then Some((colExpr.column, valExpr.value)) else None
  }

  function ExtractColValOp(left: Resolved, right: Resolved, op: BinaryOp): Option<(Column, Value, BinaryOp)> {
    match TryExtractColVal(left, right)
    case Some((col, val)) => Some((col, val, op))
    case None =>
      match TryExtractColVal(right, left)
      case Some((col, val)) => Some((col, val, InvertOp(op)))
      case None => None
  }

  function RangeOf(op: BinaryOp, v: Value): Option<Range> {
    match op
    case Eq => Some(BuildEqRange(UNBOUNDED, v))
    case Gt => Some(BuildGtRange(UNBOUNDED, v))
    case Ge => Some(BuildGteRange(UNBOUNDED, v))
    case Lt => Some(BuildLtRange(UNBOUNDED, v))
    case Le => Some(BuildLteRange(UNBOUNDED, v))
    case _ => None
  }

  function ExtractSingleRange(left: Resolved, right: Resolved, op: BinaryOp): Option<RangeInfo> {
    match ExtractColValOp(left, right, op)
    case None => None
    case Some((col, val, op')) =>
      match RangeOf(op', val)
      case None => None
      case Some(r) => Some(RangeInfo(col, r))
  }

  // ----- Merging -----

  /** compareAny's type assertions panic unless the bounds have one type. */
  predicate Comparable(a: Option<Value>, b: Option<Value>) {
    a.Some? && b.Some? ==> SameType(a.value, b.value)
  }

  predicate Mergeable(l: Range, r: Range) {
    Comparable(l.from, r.from) && Comparable(l.to, r.to) && Comparable(l.from, l.to)
    && Comparable(l.from, r.to) && Comparable(r.from, l.to) && Comparable(r.from, r.to)
  }

  function MergeFrom(l: Range, r: Range): (Option<Value>, bool)
    requires Comparable(l.from, r.from)
  {
    if l.from.None? then (r.from, r.fromInclusive)
    else if r.from.None? then (l.from, l.fromInclusive)
    else
      var cmp := Compare(l.from.value, r.from.value);
      if cmp > 0 then (l.from, l.fromInclusive)
      else if cmp < 0 then (r.from, r.fromInclusive)
      else (l.from, l.fromInclusive && r.fromInclusive)
  }

  function MergeTo(l: Range, r: Range): (Option<Value>, bool)
    requires Comparable(l.to, r.to)
  {
    if l.to.None? then (r.to, r.toInclusive)
    else if r.to.None? then (l.to, l.toInclusive)
    else
      var cmp := Compare(l.to.value, r.to.value);
      if cmp < 0 then (l.to, l.toInclusive)
      else if cmp > 0 then (r.to, r.toInclusive)
      else (l.to, l.toInclusive && r.toInclusive)
  }

  /** Nothing when the lower bound has passed the upper one. */
  function MergeRanges(l: Range, r: Range): Option<Range>
    requires Mergeable(l, r)
  {
    var (from, fromInclusive) := MergeFrom(l, r);
    var (to, toInclusive) := MergeTo(l, r);
    if from.Some? && to.Some? && Compare(from.value, to.value) > 0 then None
    else Some(Range(from, fromInclusive, to, toInclusive))
  }

  lemma MergeFromIntersects(l: Range, r: Range, t: Type, k: Value)
    requires l.HasType(t) && r.HasType(t) && k.HasType(t)
    ensures var (from, incl) := MergeFrom(l, r);
      && (from.Some? ==> from.value.HasType(t))
      && (Range(from, incl, None, false).AboveFrom(k) <==> l.AboveFrom(k) && r.AboveFrom(k))
  {
  }

  lemma MergeToIntersects(l: Range, r: Range, t: Type, k: Value)
    requires l.HasType(t) && r.HasType(t) && k.HasType(t)
    ensures var (to, incl) := MergeTo(l, r);
      && (to.Some? ==> to.value.HasType(t))
      && (Range(None, false, to, incl).BelowTo(k) <==> l.BelowTo(k) && r.BelowTo(k))
  {
  }

  /** Merging is intersection; when it gives nothing, the intersection is empty. */
  lemma MergeIntersects(l: Range, r: Range, t: Type, k: Value)
    requires l.HasType(t) && r.HasType(t) && k.HasType(t)
    ensures Mergeable(l, r)
    ensures MergeRanges(l, r).Some? ==> MergeRanges(l, r).value.HasType(t)
    ensures (match MergeRanges(l, r) case Some(m) => m.HasType(t) && m.Contains(k) case None => false) <==> l.Contains(k) && r.Contains(k)
  {
    hide MergeFrom, MergeTo;
    MergeFromIntersects(l, r, t, k);
    MergeToIntersects(l, r, t, k);
    var (from, fromInclusive) := MergeFrom(l, r);
    var (to, toInclusive) := MergeTo(l, r);
    assert Range(from, fromInclusive, to, toInclusive).AboveFrom(k) <==> Range(from, fromInclusive, None, false).AboveFrom(k);
    assert Range(from, fromInclusive, to, toInclusive).BelowTo(k) <==> Range(None, false, to, toInclusive).BelowTo(k);
  }

  function TypeOf(t: ExprType): Type {
    if t == ExprVarchar then VARCHAR else INT64
  }

  /** The range bounds a column of the table, by values of that column's type. */
  ghost predicate RangeFits(ri: RangeInfo, cat: Catalog) {
    && ri.column in cat.columns.Values && ri.column.typeOid in cat.types
    && ri.bounds.HasType(TypeOf(ToExprType(cat.types[ri.column.typeOid])))
  }

  /** extractRange with mergeAndRanges. On a well-typed predicate no comparison of bounds meets two
      types, and what comes out fits its column. */
  function ExtractRange(pred: Resolved, ghost cat: Catalog, ghost width: nat): (r: Option<RangeInfo>)
    requires CatalogOk(cat, width) && WellTyped(pred, cat)
    ensures r.Some? ==> RangeFits(r.value, cat)
  {
    if !pred.ResolvedBinary? then None
    else if pred.op.And? then
      var l, r := ExtractRange(pred.left, cat, width), ExtractRange(pred.right, cat, width);
      if l.None? then r
      else if r.None? then l
      else if l.value.column.oid != r.value.column.oid then None
      else
        MergedFits(l.value, r.value, cat, width);
        match MergeRanges(l.value.bounds, r.value.bounds)
        case None => None
        case Some(bounds) => Some(RangeInfo(l.value.column, bounds))
    else
      SingleFits(pred.left, pred.right, pred.op, cat);
      ExtractSingleRange(pred.left, pred.right, pred.op)
  }

  lemma MergedFits(l: RangeInfo, r: RangeInfo, cat: Catalog, width: nat)
    requires CatalogOk(cat, width) && RangeFits(l, cat) && RangeFits(r, cat) && l.column.oid == r.column.oid
    ensures l.column == r.column && Mergeable(l.bounds, r.bounds)
    ensures MergeRanges(l.bounds, r.bounds).Some? ==> RangeFits(RangeInfo(l.column, MergeRanges(l.bounds, r.bounds).value), cat)
  {
    var c :| c in cat.columns && cat.columns[c] == l.column;
    var d :| d in cat.columns && cat.columns[d] == r.column;
    var t := TypeOf(ToExprType(cat.types[l.column.typeOid]));
    MergeIntersects(l.bounds, r.bounds, t, if t.INT64? then Int64(0) else Varchar([]));
  }

  lemma SingleFits(left: Resolved, right: Resolved, op: BinaryOp, cat: Catalog)
    requires WellTyped(left, cat) && WellTyped(right, cat)
    requires !op.And? && !op.Or? ==> left.exprType == right.exprType != ExprBool
    ensures ExtractSingleRange(left, right, op).Some? ==> RangeFits(ExtractSingleRange(left, right, op).value, cat)
  {
  }

  // ----- What an extracted range promises -----

  /** A row on which the predicate is true has its column in the range. */
  lemma {:induction false} RangeCovers(pred: Resolved, cat: Catalog, width: nat, row: Row)
    requires CatalogOk(cat, width) && WellTyped(pred, cat) && RowMatches(row, cat)
    requires EvalBool(pred, row) == Truth(true) && ExtractRange(pred, cat, width).Some?
    ensures var ri := ExtractRange(pred, cat, width).value;
      && ri.column.position < |row|
      && row[ri.column.position].HasType(TypeOf(ToExprType(cat.types[ri.column.typeOid])))
      && ri.bounds.Contains(row[ri.column.position])
  {
    var ri := ExtractRange(pred, cat, width).value;
    CellFits(ri.column, cat, row);
    if pred.op.And? {
      var l, r := ExtractRange(pred.left, cat, width), ExtractRange(pred.right, cat, width);
      if l.Some? {
        RangeCovers(pred.left, cat, width, row);
      }
      if r.Some? {
        RangeCovers(pred.right, cat, width, row);
      }
      if l.Some? && r.Some? {
        MergedFits(l.value, r.value, cat, width);
        MergeIntersects(l.value.bounds, r.value.bounds, TypeOf(ToExprType(cat.types[ri.column.typeOid])), row[ri.column.position]);
      }
    } else {
      SingleCovers(pred, cat, row);
    }
  }

  lemma CellFits(c: Column, cat: Catalog, row: Row)
    requires c in cat.columns.Values && RowMatches(row, cat)
    ensures c.position < |row| && c.typeOid in cat.types
    ensures row[c.position].HasType(TypeOf(ToExprType(cat.types[c.typeOid])))
  {
    var name :| name in cat.columns && cat.columns[name] == c;
  }

  ghost predicate Orders(op: BinaryOp, a: Value, b: Value) {
    match op
    case Eq => a == b
    case Lt => Rank(a) < Rank(b)
    case Le => Rank(a) <= Rank(b)
    case Gt => Rank(a) > Rank(b)
    case Ge => Rank(a) >= Rank(b)
    case _ => false
  }

  lemma RangeOfOrders(op: BinaryOp, k: Value, v: Value)
    requires SameType(k, v) && RangeOf(op, v).Some?
    ensures RangeOf(op, v).value.HasType(if k.Int64? then INT64 else VARCHAR)
    ensures RangeOf(op, v).value.Contains(k) <==> Orders(op, k, v)
    ensures Orders(op, k, v) <==> Orders(InvertOp(op), v, k)
  {
    RankOrders(k, v);
  }

  /** Evaluating a comparison of two items. */
  lemma ComparisonEvaluates(op: BinaryOp, left: Resolved, right: Resolved, t: ExprType, row: Row)
    requires Eval(left, row).Item? && Eval(right, row).Item? && SameType(Eval(left, row).v, Eval(right, row).v)
    requires op.Eq? || op.Lt? || op.Le? || op.Gt? || op.Ge?
    ensures EvalBool(ResolvedBinary(op, left, right, t), row) == Truth(Orders(op, Eval(left, row).v, Eval(right, row).v))
  {
    RankOrders(Eval(left, row).v, Eval(right, row).v);
  }

  /** A single comparison with a constant, mirrored or not: the range is exactly its truth. */
  lemma SingleCovers(pred: Resolved, cat: Catalog, row: Row)
    requires WellTyped(pred, cat) && RowMatches(row, cat) && pred.ResolvedBinary?
    requires ExtractSingleRange(pred.left, pred.right, pred.op).Some? && !pred.op.And?
    ensures var ri := ExtractSingleRange(pred.left, pred.right, pred.op).value;
      && ri.column.position < |row| && ri.bounds.HasType(if row[ri.column.position].Int64? then INT64 else VARCHAR)
      && (ri.bounds.Contains(row[ri.column.position]) <==> EvalBool(pred, row) == Truth(true))
  {
    hide Eval, EvalBool, Orders, RangeOf, Range.Contains, Range.HasType, RowMatches, ToExprType, Compare, Value.HasType;
    var ri := ExtractSingleRange(pred.left, pred.right, pred.op).value;
    CellFits(ri.column, cat, row);
    ComparisonIsOrdered(pred.left, pred.right, pred.op);
    var k := row[ri.column.position];
    OperandsEvaluate(pred.left, pred.right, pred.op, row);
    if pred.left.ResolvedColumn? && pred.right.Const? {
      SameTypes(pred.left, pred.right, cat, row);
      ComparisonEvaluates(pred.op, pred.left, pred.right, pred.exprType, row);
      RangeOfOrders(pred.op, k, pred.right.value);
    } else {
      SameTypes(pred.right, pred.left, cat, row);
      ComparisonEvaluates(pred.op, pred.left, pred.right, pred.exprType, row);
      RangeOfOrders(InvertOp(pred.op), k, pred.left.value);
      assert InvertOp(InvertOp(pred.op)) == pred.op;
    }
  }

  lemma OperandsEvaluate(left: Resolved, right: Resolved, op: BinaryOp, row: Row)
    requires ExtractSingleRange(left, right, op).Some? && ExtractSingleRange(left, right, op).value.column.position < |row|
    ensures var ri := ExtractSingleRange(left, right, op).value;
      if left.ResolvedColumn? && right.Const? then
        ri == RangeInfo(left.column, ri.bounds) && Some(ri.bounds) == RangeOf(op, right.value)
        && Eval(left, row) == Item(row[ri.column.position]) && Eval(right, row) == Item(right.value)
      else
        left.Const? && right.ResolvedColumn? && ri == RangeInfo(right.column, ri.bounds) && Some(ri.bounds) == RangeOf(InvertOp(op), left.value)
        && Eval(left, row) == Item(left.value) && Eval(right, row) == Item(row[ri.column.position])
  {
  }

  lemma SameTypes(col: Resolved, val: Resolved, cat: Catalog, row: Row)
    requires col.ResolvedColumn? && val.Const? && WellTyped(col, cat) && WellTyped(val, cat) && col.exprType == val.exprType
    requires RowMatches(row, cat)
    ensures col.column.position < |row| && SameType(row[col.column.position], val.value)
  {
    CellFits(col.column, cat, row);
  }

  lemma ComparisonIsOrdered(left: Resolved, right: Resolved, op: BinaryOp)
    requires ExtractSingleRange(left, right, op).Some?
    ensures op.Eq? || op.Lt? || op.Le? || op.Gt? || op.Ge?
  {
  }

  // ----- When an extracted range is the truth -----

  /** Column `c` against a constant, on either side. */
  ghost predicate Bounds(pred: Resolved, c: Column) {
    && pred.ResolvedBinary? && (pred.op.Eq? || pred.op.Lt? || pred.op.Le? || pred.op.Gt? || pred.op.Ge?)
    && (   (pred.left.ResolvedColumn? && pred.left.column == c && pred.right.Const?)
        || (pred.right.ResolvedColumn? && pred.right.column == c && pred.left.Const?))
  }

  /** One such comparison, or an AND of them. */
  ghost predicate OneColumn(pred: Resolved, c: Column) {
    if pred.ResolvedBinary? && pred.op.And? then OneColumn(pred.left, c) && OneColumn(pred.right, c) else Bounds(pred, c)
  }

  /** No AND in the predicate has bounds that pass each other: each has a range. */
  ghost predicate Consistent(pred: Resolved, cat: Catalog, width: nat)
    requires CatalogOk(cat, width) && WellTyped(pred, cat)
  {
    pred.ResolvedBinary? && pred.op.And? ==>
      Consistent(pred.left, cat, width) && Consistent(pred.right, cat, width) && ExtractRange(pred, cat, width).Some?
  }

  lemma SingleRangeIff(pred: Resolved, c: Column)
    requires pred.ResolvedBinary?
    ensures Bounds(pred, c) <==> ExtractSingleRange(pred.left, pred.right, pred.op).Some? && ExtractSingleRange(pred.left, pred.right, pred.op).value.column == c
  {
  }

  lemma BothTrue(pred: Resolved, cat: Catalog, row: Row)
    requires WellTyped(pred, cat) && RowMatches(row, cat) && pred.ResolvedBinary? && pred.op.And?
    ensures EvalBool(pred, row) == Truth(true) <==> EvalBool(pred.left, row) == Truth(true) && EvalBool(pred.right, row) == Truth(true)
  {
    WellTypedEvaluates(pred.left, cat, row);
    WellTypedEvaluates(pred.right, cat, row);
  }

  /** An AND of comparisons of one column with constants is true exactly on its range, unless some AND in it has
      bounds that pass each other: then it is never true. */
  lemma {:induction false} RangeIsTruth(pred: Resolved, c: Column, cat: Catalog, width: nat, row: Row)
    requires CatalogOk(cat, width) && WellTyped(pred, cat) && RowMatches(row, cat) && OneColumn(pred, c)
    ensures Consistent(pred, cat, width) ==>
      && ExtractRange(pred, cat, width).Some? && ExtractRange(pred, cat, width).value.column == c
      && c.position < |row| && RangeFits(ExtractRange(pred, cat, width).value, cat) && row[c.position].HasType(TypeOf(ToExprType(cat.types[c.typeOid])))
    ensures EvalBool(pred, row) == Truth(true) <==>
      Consistent(pred, cat, width) && ExtractRange(pred, cat, width).value.bounds.Contains(row[c.position])
  {
    hide EvalBool, RowMatches, MergeRanges, Range.Contains, Range.HasType, ToExprType, ExtractSingleRange;
    if pred.op.And? {
      BothTrue(pred, cat, row);
      RangeIsTruth(pred.left, c, cat, width, row);
      RangeIsTruth(pred.right, c, cat, width, row);
      if Consistent(pred.left, cat, width) && Consistent(pred.right, cat, width) {
        var l, r := ExtractRange(pred.left, cat, width).value, ExtractRange(pred.right, cat, width).value;
        MergedFits(l, r, cat, width);
        MergeIntersects(l.bounds, r.bounds, TypeOf(ToExprType(cat.types[c.typeOid])), row[c.position]);
      }
    } else {
      SingleRangeIff(pred, c);
      SingleFits(pred.left, pred.right, pred.op, cat);
      CellFits(c, cat, row);
      SingleCovers(pred, cat, row);
    }
  }

  const ONE_COLUMN: Column := Column(1, 0, 1)
  const ONE_COLUMN_CATALOG: Catalog := Catalog(map["c" := ONE_COLUMN], map[1 := "INT64"])

  /** The one column against a number. */
  function Versus(op: BinaryOp, n: int64): Resolved {
    ResolvedBinary(op, ResolvedColumn(ONE_COLUMN, ExprInt64), Const(Int64(n), ExprInt64), ExprBool)
  }

  lemma VersusTyped(op: BinaryOp, n: int64)
    requires !op.And? && !op.Or?
    ensures CatalogOk(ONE_COLUMN_CATALOG, 1) && WellTyped(Versus(op, n), ONE_COLUMN_CATALOG) && RowMatches([Int64(4)], ONE_COLUMN_CATALOG)
  {
    assert ONE_COLUMN_CATALOG.columns["c"] == ONE_COLUMN;
    assert WellTyped(ResolvedColumn(ONE_COLUMN, ExprInt64), ONE_COLUMN_CATALOG) && WellTyped(Const(Int64(n), ExprInt64), ONE_COLUMN_CATALOG);
  }

  lemma PassingBounds()
    ensures var pred := ResolvedBinary(And, Versus(Gt, 5), Versus(Lt, 3), ExprBool);
      && CatalogOk(ONE_COLUMN_CATALOG, 1) && WellTyped(pred, ONE_COLUMN_CATALOG) && ExtractRange(pred, ONE_COLUMN_CATALOG, 1) == None
      && EvalBool(pred, [Int64(4)]) == Truth(false)
  {
    VersusTyped(Gt, 5);
    VersusTyped(Lt, 3);
    assert ExtractRange(Versus(Gt, 5), ONE_COLUMN_CATALOG, 1).value.bounds == Range(Some(Int64(5)), false, None, false);
    assert ExtractRange(Versus(Lt, 3), ONE_COLUMN_CATALOG, 1).value.bounds == Range(None, false, Some(Int64(3)), false);
  }

  /** (c > 5 AND c < 3) AND c = 4 has the range of c = 4 alone, though it is never true. */
  lemma LooseRange()
    ensures var pred := ResolvedBinary(And, ResolvedBinary(And, Versus(Gt, 5), Versus(Lt, 3), ExprBool), Versus(Eq, 4), ExprBool);
      && CatalogOk(ONE_COLUMN_CATALOG, 1) && WellTyped(pred, ONE_COLUMN_CATALOG) && OneColumn(pred, ONE_COLUMN)
      && ExtractRange(pred, ONE_COLUMN_CATALOG, 1) == Some(RangeInfo(ONE_COLUMN, Range(Some(Int64(4)), true, Some(Int64(4)), true)))
      && RowMatches([Int64(4)], ONE_COLUMN_CATALOG) && EvalBool(pred, [Int64(4)]) == Truth(false)
  {
    PassingBounds();
    VersusTyped(Eq, 4);
    var both := ResolvedBinary(And, Versus(Gt, 5), Versus(Lt, 3), ExprBool);
    assert ExtractRange(Versus(Eq, 4), ONE_COLUMN_CATALOG, 1).value.bounds == Range(Some(Int64(4)), true, Some(Int64(4)), true);
    assert OneColumn(both, ONE_COLUMN) && OneColumn(Versus(Eq, 4), ONE_COLUMN);
    assert EvalBool(Versus(Eq, 4), [Int64(4)]).Truth?;
  }

  // ----- Choosing the scan -----

  function ExtractEquality(pred: Resolved): Option<(Column, Value)> {
    if !pred.ResolvedBinary? || !pred.op.Eq? then None
    else
      match TryExtractColVal(pred.left, pred.right)
      case Some(cv) => Some(cv)
      case None => TryExtractColVal(pred.right, pred.left)
  }

  /** The first index of the kind on the column. */
  function FindIndex(indexes: seq<IndexDef>, columnOid: int, kind: IndexKind): (r: Option<IndexDef>)
    ensures r.Some? ==> r.value in indexes && r.value.kind == kind && r.value.columnOid == columnOid
    ensures r.None? <==> forall i :: 0 <= i < |indexes| ==> !(indexes[i].kind == kind && indexes[i].columnOid == columnOid)
  {
    if indexes == [] then None
    else if indexes[0].kind == kind && indexes[0].columnOid == columnOid then Some(indexes[0])
    else FindIndex(indexes[1..], columnOid, kind)
  }

  function TryHashScan(indexes: seq<IndexDef>, pred: Resolved): Option<Plan> {
    match ExtractEquality(pred)
    case None => None
    case Some((col, val)) =>
      match FindIndex(indexes, col.oid, HashIndex)
      case None => None
      case Some(idx) => Some(HashIndexScan(idx, val))
  }

  function TryBTreeScan(indexes: seq<IndexDef>, pred: Resolved, ghost cat: Catalog, ghost width: nat): Option<Plan>
    requires CatalogOk(cat, width) && WellTyped(pred, cat)
  {
    match ExtractRange(pred, cat, width)
    case None => None
    case Some(rng) =>
      match FindIndex(indexes, rng.column.oid, BTreeIndex)
      case None => None
      case Some(idx) => Some(BTreeIndexScan(idx, rng.bounds))
  }

  function ChooseBestScan(indexes: seq<IndexDef>, pred: Resolved, ghost cat: Catalog, ghost width: nat): Plan
    requires CatalogOk(cat, width) && WellTyped(pred, cat)
  {
    match TryHashScan(indexes, pred)
    case Some(plan) => plan
    case None =>
      match TryBTreeScan(indexes, pred, cat, width)
      case Some(plan) => plan
      case None => SeqScan
  }

  // ----- Which scan is chosen -----

  /** Column equals constant, on either side. */
  ghost predicate IsEquality(pred: Resolved, c: Column, v: Value) {
    && pred.ResolvedBinary? && pred.op.Eq?
    && (   (pred.left.ResolvedColumn? && pred.left.column == c && pred.right.Const? && pred.right.value == v)
        || (pred.right.ResolvedColumn? && pred.right.column == c && pred.left.Const? && pred.left.value == v))
  }

  ghost predicate Indexed(indexes: seq<IndexDef>, c: Column, kind: IndexKind) {
    exists i :: 0 <= i < |indexes| && indexes[i].kind == kind && indexes[i].columnOid == c.oid
  }

  ghost predicate IndexOn(idx: IndexDef, indexes: seq<IndexDef>, c: Column, kind: IndexKind) {
    idx in indexes && idx.kind == kind && idx.columnOid == c.oid
  }

  ghost predicate HashUsable(indexes: seq<IndexDef>, pred: Resolved) {
    exists c, v :: IsEquality(pred, c, v) && Indexed(indexes, c, HashIndex)
  }

  ghost predicate RangeUsable(indexes: seq<IndexDef>, pred: Resolved, cat: Catalog, width: nat)
    requires CatalogOk(cat, width) && WellTyped(pred, cat)
  {
    ExtractRange(pred, cat, width).Some? && Indexed(indexes, ExtractRange(pred, cat, width).value.column, BTreeIndex)
  }

  lemma EqualityIff(pred: Resolved, c: Column, v: Value)
    ensures ExtractEquality(pred) == Some((c, v)) <==> IsEquality(pred, c, v)
  {
  }

  /** A hash index is used exactly for an equality with a constant on a column that has one; otherwise a B+tree
      exactly where a range is extracted for a column that has one; otherwise the table is scanned. */
  lemma ChoiceIs(indexes: seq<IndexDef>, pred: Resolved, cat: Catalog, width: nat)
    requires CatalogOk(cat, width) && WellTyped(pred, cat)
    ensures match ChooseBestScan(indexes, pred, cat, width)
      case HashIndexScan(idx, key) => exists c :: IsEquality(pred, c, key) && IndexOn(idx, indexes, c, HashIndex)
      case BTreeIndexScan(idx, range) =>
        && !HashUsable(indexes, pred) && ExtractRange(pred, cat, width).Some?
        && range == ExtractRange(pred, cat, width).value.bounds
        && IndexOn(idx, indexes, ExtractRange(pred, cat, width).value.column, BTreeIndex)
      case SeqScan => !HashUsable(indexes, pred) && !RangeUsable(indexes, pred, cat, width)
  {
    hide ExtractRange, ExtractEquality, IsEquality;
    if ExtractEquality(pred).Some? {
      var (c, v) := ExtractEquality(pred).value;
      EqualityIff(pred, c, v);
    }
    forall c, v | IsEquality(pred, c, v) ensures ExtractEquality(pred) == Some((c, v)) {
      EqualityIff(pred, c, v);
    }
  }
}
