/** Predicates: syntax, what they mean, name and type resolution, and the filter's evaluator. */
module Expressions {
  import opened Values
  import Utf8

  datatype BinaryOp = And | Or | Eq | Ne | Lt | Le | Gt | Ge

  datatype Expr =
    | ColumnRef(name: string)
    | IntLiteral(n: int64)
    | StringLiteral(s: string)
    | Binary(op: BinaryOp, left: Expr, right: Expr)

  // ----- The catalog of one table -----

  datatype Column = Column(oid: int, position: nat, typeOid: int)

  /** The table's columns by name, and the type names by oid. */
  datatype Catalog = Catalog(columns: map<string, Column>, types: map<int, string>)

  type Row = seq<Value>

  /** Each column has a known type, a place of its own in the row, and an oid of its own. */
  ghost predicate CatalogOk(cat: Catalog, width: nat) {
    && (forall c :: c in cat.columns ==> cat.columns[c].position < width)
    && (forall c, d :: c in cat.columns && d in cat.columns && cat.columns[c].oid == cat.columns[d].oid ==> cat.columns[c] == cat.columns[d])
  }

  datatype ExprType = ExprInt64 | ExprVarchar | ExprBool

  /** Unlisted type names count as INT64. */
  function ToExprType(typeName: string): ExprType {
    if typeName == "VARCHAR" then ExprVarchar else ExprInt64
  }

  function ValueType(v: Value): ExprType {
    if v.Int64? then ExprInt64 else ExprVarchar
  }

  /** The row's values have their columns' types. */
  ghost predicate RowMatches(row: Row, cat: Catalog) {
    forall c :: c in cat.columns ==>
      && cat.columns[c].position < |row|
      && cat.columns[c].typeOid in cat.types
      && ValueType(row[cat.columns[c].position]) == ToExprType(cat.types[cat.columns[c].typeOid])
  }

  // ----- What a predicate means -----

  ghost function Scalar(e: Expr, cat: Catalog, row: Row): Option<Value> {
    match e
    case ColumnRef(name) =>
      if name in cat.columns && cat.columns[name].position < |row| then Some(row[cat.columns[name].position]) else None
    case IntLiteral(n) => Some(Int64(n))
    case StringLiteral(s) => Some(Varchar(Utf8.Encode(s)))
    case Binary(_, _, _) => None
  }

  /** The truth of a predicate on a row, by the order of the values. */
  ghost predicate Meaning(e: Expr, cat: Catalog, row: Row) {
    match e
    case Binary(And, l, r) => Meaning(l, cat, row) && Meaning(r, cat, row)
    case Binary(Or, l, r) => Meaning(l, cat, row) || Meaning(r, cat, row)
    case Binary(op, l, r) =>
      var a, b := Scalar(l, cat, row), Scalar(r, cat, row);
      a.Some? && b.Some? &&
      (match op
       case Eq => a.value == b.value
       case Ne => a.value != b.value
       case Lt => Rank(a.value) < Rank(b.value)
       case Le => Rank(a.value) <= Rank(b.value)
       case Gt => Rank(a.value) > Rank(b.value)
       case _ => Rank(a.value) >= Rank(b.value))
    case _ => false
  }

  // ----- Resolution -----

  datatype Resolved =
    | Const(value: Value, exprType: ExprType)
    | ResolvedColumn(column: Column, exprType: ExprType)
    | ResolvedBinary(op: BinaryOp, left: Resolved, right: Resolved, exprType: ExprType)

  datatype SemanticError = ColumnNotFound | UnknownTypeOid | OperandNotBool | TypeMismatch | BoolComparison | WhereNotBool
    | CountMismatch | NotLiteral

  datatype Result<+T> = Ok(value: T) | Err(error: SemanticError)

  function ResolveExpr(e: Expr, cat: Catalog): Result<Resolved> {
    match e
    case ColumnRef(name) =>
      if name !in cat.columns then Err(ColumnNotFound)
      else if cat.columns[name].typeOid !in cat.types then Err(UnknownTypeOid)
      else Ok(ResolvedColumn(cat.columns[name], ToExprType(cat.types[cat.columns[name].typeOid])))
    case IntLiteral(n) => Ok(Const(Int64(n), ExprInt64))
    case StringLiteral(s) => Ok(Const(Varchar(Utf8.Encode(s)), ExprVarchar))
    case Binary(op, l, r) =>
      var left := ResolveExpr(l, cat);
      if left.Err? then left else
      var right := ResolveExpr(r, cat);
      if right.Err? then right else
      if op.And? || op.Or? then
        if left.value.exprType != ExprBool || right.value.exprType != ExprBool then Err(OperandNotBool)
        else Ok(ResolvedBinary(op, left.value, right.value, ExprBool))
      else if left.value.exprType != right.value.exprType then Err(TypeMismatch)
      else if left.value.exprType == ExprBool then Err(BoolComparison)
      else Ok(ResolvedBinary(op, left.value, right.value, ExprBool))
  }

  /** resolveLiteral: INSERT takes literals only. */
  function ResolveLiteral(e: Expr): Option<Value> {
    match e
    case IntLiteral(n) => Some(Int64(n))
    case StringLiteral(s) => Some(Varchar(Utf8.Encode(s)))
    case _ => None
  }

  // ----- What resolution accepts -----

  /** The static type of an expression, by the declared types of its columns; none if it is ill-typed. */
  function StaticType(e: Expr, cat: Catalog): Option<ExprType> {
    match e
    case ColumnRef(name) =>
      if name in cat.columns && cat.columns[name].typeOid in cat.types
      then Some(if cat.types[cat.columns[name].typeOid] == "VARCHAR" then ExprVarchar else ExprInt64) else None
    case IntLiteral(_) => Some(ExprInt64)
    case StringLiteral(_) => Some(ExprVarchar)
    case Binary(op, l, r) =>
      var a, b := StaticType(l, cat), StaticType(r, cat);
      if op.And? || op.Or? then
        if a == Some(ExprBool) && b == Some(ExprBool) then Some(ExprBool) else None
      else
        if a.Some? && a == b && a != Some(ExprBool) then Some(ExprBool) else None
  }

  /** Exactly the well-typed expressions are accepted, with their types. */
  lemma {:induction false} ResolvesIffTyped(e: Expr, cat: Catalog)
    ensures ResolveExpr(e, cat).Ok? <==> StaticType(e, cat).Some?
    ensures ResolveExpr(e, cat).Ok? ==> StaticType(e, cat) == Some(ResolveExpr(e, cat).value.exprType)
  {
    match e
    case Binary(_, l, r) =>
      ResolvesIffTyped(l, cat);
      ResolvesIffTyped(r, cat);
    case _ =>
  }

  // ----- Which error is reported -----

  /** An expression and all its parts, each behind its own parts, the left ones first. */
  function Parts(e: Expr): (r: seq<Expr>)
    ensures r != [] && r[|r| - 1] == e
  {
    match e
    case Binary(_, l, r) => Parts(l) + Parts(r) + [e]
    case _ => [e]
  }

  /** What is wrong with an expression whose parts are well-typed. */
  ghost predicate Faulty(e: Expr, cat: Catalog, err: SemanticError) {
    match e
    case ColumnRef(name) =>
      || (err == ColumnNotFound && name !in cat.columns)
      || (err == UnknownTypeOid && name in cat.columns && cat.columns[name].typeOid !in cat.types)
    case Binary(op, l, r) =>
      var a, b := StaticType(l, cat), StaticType(r, cat);
      a.Some? && b.Some? &&
      if op.And? || op.Or? then err == OperandNotBool && !(a.value == b.value == ExprBool)
      else (err == TypeMismatch && a != b) || (err == BoolComparison && a.value == b.value == ExprBool)
    case _ => false
  }

  ghost predicate FirstFault(parts: seq<Expr>, cat: Catalog, err: SemanticError, i: nat) {
    i < |parts| && Faulty(parts[i], cat, err) && forall j, x :: 0 <= j < i ==> !Faulty(parts[j], cat, x)
  }

  ghost predicate Faultless(parts: seq<Expr>, cat: Catalog) {
    forall i, x :: 0 <= i < |parts| ==> !Faulty(parts[i], cat, x)
  }

  lemma FaultInFront(front: seq<Expr>, rest: seq<Expr>, cat: Catalog, err: SemanticError, i: nat)
    requires FirstFault(front, cat, err, i)
    ensures FirstFault(front + rest, cat, err, i)
  {
    hide Faulty;
    forall j, x | 0 <= j < i ensures !Faulty((front + rest)[j], cat, x) {
      assert !Faulty(front[j], cat, x);
    }
  }

  lemma FaultBehind(front: seq<Expr>, rest: seq<Expr>, cat: Catalog, err: SemanticError, i: nat)
    requires Faultless(front, cat) && FirstFault(rest, cat, err, i)
    ensures FirstFault(front + rest, cat, err, |front| + i)
  {
    hide Faulty;
    forall j, x | 0 <= j < |front| + i ensures !Faulty((front + rest)[j], cat, x) {
      if j < |front| {
        assert !Faulty(front[j], cat, x);
      } else {
        assert !Faulty(rest[j - |front|], cat, x);
      }
    }
  }

  lemma FaultlessJoin(a: seq<Expr>, b: seq<Expr>, cat: Catalog)
    requires Faultless(a, cat) && Faultless(b, cat)
    ensures Faultless(a + b, cat)
  {
  }

  /** The error of an ill-typed expression is that of its first faulty part; a well-typed one has none. */
  lemma {:induction false} FirstFaultWins(e: Expr, cat: Catalog)
    ensures ResolveExpr(e, cat).Err? ==> exists i :: FirstFault(Parts(e), cat, ResolveExpr(e, cat).error, i)
    ensures ResolveExpr(e, cat).Ok? ==> Faultless(Parts(e), cat)
  {
    match e
    case Binary(op, l, r) =>
      FirstFaultWins(l, cat);
      FirstFaultWins(r, cat);
      ResolvesIffTyped(l, cat);
      ResolvesIffTyped(r, cat);
      JoinedFault(e, cat);
    case ColumnRef(_) =>
      if ResolveExpr(e, cat).Err? {
        assert FirstFault(Parts(e), cat, ResolveExpr(e, cat).error, 0);
      }
    case _ =>
  }

  lemma JoinedFault(e: Expr, cat: Catalog)
    requires e.Binary?
    requires ResolveExpr(e.left, cat).Err? ==> exists i :: FirstFault(Parts(e.left), cat, ResolveExpr(e.left, cat).error, i)
    requires ResolveExpr(e.right, cat).Err? ==> exists i :: FirstFault(Parts(e.right), cat, ResolveExpr(e.right, cat).error, i)
    requires ResolveExpr(e.left, cat).Ok? ==> Faultless(Parts(e.left), cat) && StaticType(e.left, cat) == Some(ResolveExpr(e.left, cat).value.exprType)
    requires ResolveExpr(e.right, cat).Ok? ==> Faultless(Parts(e.right), cat) && StaticType(e.right, cat) == Some(ResolveExpr(e.right, cat).value.exprType)
    ensures ResolveExpr(e, cat).Err? ==> exists i :: FirstFault(Parts(e), cat, ResolveExpr(e, cat).error, i)
    ensures ResolveExpr(e, cat).Ok? ==> Faultless(Parts(e), cat)
  {
    hide FirstFault, Faultless, StaticType;
    var a, b := Parts(e.left), Parts(e.right);
    assert Parts(e) == a + (b + [e]) == (a + b) + [e];
    if ResolveExpr(e.left, cat).Err? {
      var err := ResolveExpr(e.left, cat).error;
      var i :| FirstFault(a, cat, err, i);
      FaultInFront(a, b + [e], cat, err, i);
    } else if ResolveExpr(e.right, cat).Err? {
      var err := ResolveExpr(e.right, cat).error;
      var i :| FirstFault(b, cat, err, i);
      FaultInFront(b, [e], cat, err, i);
      FaultBehind(a, b + [e], cat, err, i);
    } else {
      FaultlessJoin(a, b, cat);
      OwnFault(e, cat);
      if ResolveExpr(e, cat).Err? {
        FaultBehind(a + b, [e], cat, ResolveExpr(e, cat).error, 0);
      } else {
        FaultlessJoin(a + b, [e], cat);
      }
    }
  }

  lemma OwnFault(e: Expr, cat: Catalog)
    requires e.Binary? && ResolveExpr(e.left, cat).Ok? && ResolveExpr(e.right, cat).Ok?
    requires StaticType(e.left, cat) == Some(ResolveExpr(e.left, cat).value.exprType)
    requires StaticType(e.right, cat) == Some(ResolveExpr(e.right, cat).value.exprType)
    ensures if ResolveExpr(e, cat).Err? then FirstFault([e], cat, ResolveExpr(e, cat).error, 0) else Faultless([e], cat)
  {
  }

  // ----- What a literal denotes, and what comparisons of literals say -----

  /** An integer literal denotes its number, a string literal the UTF-8 bytes of its text. */
  ghost predicate Denotes(e: Expr, v: Value) {
    match e
    case IntLiteral(n) => v == Int64(n)
    case StringLiteral(s) => v.Varchar? && Utf8.Valid(v.s) && Utf8.Decode(v.s) == s
    case _ => false
  }

  predicate IsLiteral(e: Expr) {
    e.IntLiteral? || e.StringLiteral?
  }

  /** Exactly literals resolve, to what they denote, in INSERT as in a predicate. */
  lemma LiteralDenotes(e: Expr, cat: Catalog, row: Row)
    ensures ResolveLiteral(e).Some? <==> IsLiteral(e)
    ensures IsLiteral(e) ==>
      && Denotes(e, ResolveLiteral(e).value)
      && Scalar(e, cat, row) == ResolveLiteral(e)
      && ResolveExpr(e, cat) == Ok(Const(ResolveLiteral(e).value, if e.IntLiteral? then ExprInt64 else ExprVarchar))
  {
    if e.StringLiteral? {
      Utf8.DecodeEncoded(e.s);
    }
  }

  /** A literal denotes one value. */
  lemma DenotesOne(e: Expr, v: Value, w: Value)
    requires Denotes(e, v) && Denotes(e, w)
    ensures v == w
  {
    if e.StringLiteral? {
      Utf8.EncodeDecoded(v.s);
      Utf8.EncodeDecoded(w.s);
    }
  }

  /** A comparison operator on numbers. */
  predicate Compares(op: BinaryOp, a: int64, b: int64) {
    match op
    case Eq => a == b
    case Ne => a != b
    case Lt => a < b
    case Le => a <= b
    case Gt => a > b
    case Ge => a >= b
    case _ => false
  }

  /** A comparison operator on texts, in the order of their characters. */
  predicate ComparesText(op: BinaryOp, a: string, b: string) {
    match op
    case Eq => a == b
    case Ne => a != b
    case Lt => Utf8.TextLess(a, b)
    case Le => a == b || Utf8.TextLess(a, b)
    case Gt => Utf8.TextLess(b, a)
    case Ge => a == b || Utf8.TextLess(b, a)
    case _ => false
  }

  /** Comparing numbers compares the numbers. */
  lemma NumbersCompare(op: BinaryOp, l: Expr, r: Expr, cat: Catalog, row: Row, a: int64, b: int64)
    requires !op.And? && !op.Or? && Scalar(l, cat, row) == Some(Int64(a)) && Scalar(r, cat, row) == Some(Int64(b))
    ensures Meaning(Binary(op, l, r), cat, row) <==> Compares(op, a, b)
  {
    RankOrders(Int64(a), Int64(b));
  }

  /** Comparing stored text compares the texts. */
  lemma TextsCompare(op: BinaryOp, l: Expr, r: Expr, cat: Catalog, row: Row, x: seq<byte>, y: seq<byte>)
    requires !op.And? && !op.Or? && Scalar(l, cat, row) == Some(Varchar(x)) && Scalar(r, cat, row) == Some(Varchar(y))
    requires Utf8.Valid(x) && Utf8.Valid(y)
    ensures Meaning(Binary(op, l, r), cat, row) <==> ComparesText(op, Utf8.Decode(x), Utf8.Decode(y))
  {
    RankOrders(Varchar(x), Varchar(y));
    Utf8.EncodeDecoded(x);
    Utf8.EncodeDecoded(y);
    Utf8.EncodeOrders(Utf8.Decode(x), Utf8.Decode(y));
    Utf8.EncodeOrders(Utf8.Decode(y), Utf8.Decode(x));
  }

  /** The cell of a column is the value of its name. */
  lemma ColumnIsCell(c: string, cat: Catalog, row: Row)
    requires c in cat.columns && cat.columns[c].position < |row|
    ensures Scalar(ColumnRef(c), cat, row) == Some(row[cat.columns[c].position])
  {
  }

  /** A column declared VARCHAR holds strings, every other one numbers. */
  lemma DeclaredTypes(row: Row, cat: Catalog, c: string)
    requires RowMatches(row, cat) && c in cat.columns
    ensures cat.columns[c].position < |row| && cat.columns[c].typeOid in cat.types
    ensures row[cat.columns[c].position].Varchar? <==> cat.types[cat.columns[c].typeOid] == "VARCHAR"
  {
  }

  // ----- Evaluation -----

  /** Go's `any`, and the panic of a failed type assertion or index. */
  datatype Any = Item(v: Value) | Truth(b: bool) | Panic

  /** compare: the second type assertion panics on a different dynamic type; other types compare equal. */
  function CompareAny(a: Any, b: Any): Option<int> {
    if a.Item? then
      if b.Item? && SameType(a.v, b.v) then Some(Compare(a.v, b.v)) else None
    else Some(0)
  }

  function Eval(e: Resolved, row: Row): Any
    decreases e, 0
  {
    match e
    case Const(v, _) => Item(v)
    case ResolvedColumn(c, _) => if c.position < |row| then Item(row[c.position]) else Panic
    case ResolvedBinary(And, l, r, _) =>
      (match EvalBool(l, row)
       case Panic => Panic
       case Truth(false) => Truth(false)
       case _ => EvalBool(r, row))
    case ResolvedBinary(Or, l, r, _) =>
      (match EvalBool(l, row)
       case Panic => Panic
       case Truth(true) => Truth(true)
       case _ => EvalBool(r, row))
    case ResolvedBinary(op, l, r, _) =>
      var left := Eval(l, row);
      if left.Panic? then Panic else
      var right := Eval(r, row);
      if right.Panic? then Panic else
      if op.Eq? then Truth(left == right)
      else if op.Ne? then Truth(left != right)
      else
        match CompareAny(left, right)
        case None => Panic
        case Some(cmp) =>
          match op
          case Lt => Truth(cmp < 0)
          case Le => Truth(cmp <= 0)
          case Gt => Truth(cmp > 0)
          case _ => Truth(cmp >= 0)
  }

  /** Anything that is not a boolean counts as false. */
  function EvalBool(e: Resolved, row: Row): Any
    decreases e, 1
  {
    match Eval(e, row)
    case Truth(b) => Truth(b)
    case Panic => Panic
    case Item(_) => Truth(false)
  }

  /** An evaluation result of the given static type. */
  predicate Yields(a: Any, t: ExprType) {
    match a
    case Item(v) => ValueType(v) == t
    case Truth(_) => t == ExprBool
    case Panic => false
  }

  /** Type soundness: a resolved expression evaluates without a panic, to a value of its type; a
      boolean one evaluates to exactly the truth of the predicate. */
  lemma {:induction false} ResolvedEvaluates(e: Expr, cat: Catalog, row: Row)
    requires ResolveExpr(e, cat).Ok? && RowMatches(row, cat)
    ensures var r := ResolveExpr(e, cat).value;
      && Yields(Eval(r, row), r.exprType)
      && (r.exprType == ExprBool ==> EvalBool(r, row) == Truth(Meaning(e, cat, row)))
      && (r.exprType != ExprBool ==> Scalar(e, cat, row) == Some(Eval(r, row).v))
  {
    match e
    case Binary(op, l, r) =>
      ResolvedEvaluates(l, cat, row);
      ResolvedEvaluates(r, cat, row);
      var left, right := ResolveExpr(l, cat).value, ResolveExpr(r, cat).value;
      if !op.And? && !op.Or? {
        RankOrders(Eval(left, row).v, Eval(right, row).v);
      }
    case _ =>
  }

  // ----- Well-typed resolved predicates, as the optimizer receives them -----

  ghost predicate WellTyped(e: Resolved, cat: Catalog) {
    match e
    case Const(v, t) => ValueType(v) == t
    case ResolvedColumn(c, t) => c in cat.columns.Values && c.typeOid in cat.types && t == ToExprType(cat.types[c.typeOid])
    case ResolvedBinary(op, l, r, t) =>
      && t == ExprBool && WellTyped(l, cat) && WellTyped(r, cat)
      && if op.And? || op.Or? then l.exprType == ExprBool && r.exprType == ExprBool
         else l.exprType == r.exprType != ExprBool
  }

  lemma {:induction false} ResolvedIsWellTyped(e: Expr, cat: Catalog)
    requires ResolveExpr(e, cat).Ok?
    ensures WellTyped(ResolveExpr(e, cat).value, cat)
  {
    match e
    case Binary(_, l, r) =>
      ResolvedIsWellTyped(l, cat);
      ResolvedIsWellTyped(r, cat);
    case ColumnRef(name) => assert cat.columns[name] in cat.columns.Values;
    case _ =>
  }

  lemma {:induction false} WellTypedEvaluates(e: Resolved, cat: Catalog, row: Row)
    requires WellTyped(e, cat) && RowMatches(row, cat)
    ensures Yields(Eval(e, row), e.exprType)
    ensures e.exprType == ExprBool ==> EvalBool(e, row).Truth?
  {
    match e
    case ResolvedBinary(_, l, r, _) =>
      WellTypedEvaluates(l, cat, row);
      WellTypedEvaluates(r, cat, row);
    case ResolvedColumn(c, _) =>
      var name :| name in cat.columns && cat.columns[name] == c;
    case _ =>
  }
}
