/** The two SQL value types, their comparison, and TIDs. */
module Values {

  datatype Option<+T> = None | Some(value: T)

  type byte = b: int | 0 <= b < 256
  type int64 = n: int | -0x8000_0000_0000_0000 <= n < 0x8000_0000_0000_0000
  type int32 = n: int | -0x8000_0000 <= n < 0x8000_0000
  type int16 = n: int | -0x8000 <= n < 0x8000

  /** A row identifier: a heap page and a slot in it. */
  datatype Tid = Tid(pageID: int32, slotID: int16)

  datatype Type = INT64 | VARCHAR

  /** A column value or an index key; strings are byte strings, as in Go. */
  datatype Value = Int64(n: int64) | Varchar(s: seq<byte>)
  {
    predicate HasType(t: Type) {
      t == if Int64? then INT64 else VARCHAR
    }
  }

  predicate SameType(a: Value, b: Value) {
    a.Int64? == b.Int64?
  }

  /** Go's `<` on strings: bytewise lexicographic. */
  predicate BytesLess(a: seq<byte>, b: seq<byte>) {
    b != [] && (a == [] || a[0] < b[0] || (a[0] == b[0] && BytesLess(a[1..], b[1..])))
  }

  /** Three-way comparison. The callers' type assertions panic on mixed types. */
  function Compare(a: Value, b: Value): (r: int)
    requires SameType(a, b)
    ensures r in {-1, 0, 1}
    ensures r < 0 <==> Rank(a) < Rank(b)
    ensures r == 0 <==> a == b
    ensures r > 0 <==> Rank(a) > Rank(b)
  {
    RankOrders(a, b);
    if a.Int64? then
      if a.n < b.n then -1 else if a.n > b.n then 1 else 0
    else
      if BytesLess(a.s, b.s) then -1 else if BytesLess(b.s, a.s) then 1 else 0
  }

  // ----- An order embedding into the reals -----

  /** Reads a byte string as a base-257 fraction with digits 1..256. */
  ghost function Fraction(s: seq<byte>): (r: real)
    ensures 0.0 <= r < 1.0
    ensures s != [] ==> r > 0.0
  {
    if s == [] then 0.0 else (s[0] as real + 1.0 + Fraction(s[1..])) / 257.0
  }

  /** Places each value of one type on the real line, so that key order becomes arithmetic. */
  ghost function Rank(v: Value): real {
    match v
    case Int64(n) => n as real
    case Varchar(s) => Fraction(s)
  }

  lemma {:induction false} FractionOrders(a: seq<byte>, b: seq<byte>)
    ensures BytesLess(a, b) <==> Fraction(a) < Fraction(b)
    ensures a == b <==> Fraction(a) == Fraction(b)
  {
    if a != [] && b != [] {
      FractionOrders(a[1..], b[1..]);
      if a[0] == b[0] {
        assert a == [a[0]] + a[1..] && b == [b[0]] + b[1..];
      }
    }
  }

  lemma RankOrders(a: Value, b: Value)
    requires SameType(a, b)
    ensures a == b <==> Rank(a) == Rank(b)
    ensures a.Int64? ==> (a.n < b.n <==> Rank(a) < Rank(b))
    ensures a.Varchar? ==> (BytesLess(a.s, b.s) <==> Rank(a) < Rank(b))
    ensures a.Varchar? ==> (BytesLess(b.s, a.s) <==> Rank(b) < Rank(a))
  {
    if a.Varchar? {
      FractionOrders(a.s, b.s);
      FractionOrders(b.s, a.s);
    }
  }

  lemma {:induction false} SubsetCardinality<T>(a: set<T>, b: set<T>)
    requires a <= b
    ensures |a| <= |b|
  {
    assert b == a + (b - a);
  }
}
