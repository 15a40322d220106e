/** Runs of inserts that lead a B+tree index where its promises end: a VARCHAR page that overflows,
    and a metadata page that no longer says which pages are in use. */
module BTreeRuns {
  import opened Values
  import opened Pages
  import opened KeyCodec
  import opened IndexLog
  import opened BTreeShape
  import opened BTreePages
  import opened BTreeSteps
  import opened BTreeCascade
  import opened BTreeInt64
  import opened BTreeSeparators
  import opened BTreeKept
  import opened BTreeModel
  import opened DiskBTree

  /** The string of `n` times the byte `c`. */
  function Text(c: byte, n: nat): (v: Value)
    ensures v.HasType(VARCHAR) && KeySize(v) == 2 + n
  {
    Varchar(seq(n, _ => c))
  }

  lemma TextOrders(c: byte, m: nat, d: byte, n: nat)
    requires c < d && m >= 1 && n >= 1
    ensures Rank(Text(c, m)) < Rank(Text(d, n))
  {
    RankOrders(Text(c, m), Text(d, n));
    assert Text(c, m).s[0] == c && Text(d, n).s[0] == d;
  }

  // ----- Sizes of small pages -----

  lemma KeySizes(a: Value, b: Value, c: Value)
    ensures KeysSize([a]) == KeySize(a)
    ensures KeysSize([a, b]) == KeySize(a) + KeySize(b)
    ensures KeysSize([a, b, c]) == KeySize(a) + KeySize(b) + KeySize(c)
  {
    assert [a][..0] == [] && [a, b][..1] == [a] && [a, b, c][..2] == [a, b];
  }

  lemma {:induction false} ValueSizes(v: seq<seq<Tid>>)
    requires 1 <= |v| <= 3
    ensures |v| == 1 ==> ValuesSize(v) == 4 + 6 * |v[0]|
    ensures |v| == 2 ==> ValuesSize(v) == 8 + 6 * (|v[0]| + |v[1]|)
    ensures |v| == 3 ==> ValuesSize(v) == 12 + 6 * (|v[0]| + |v[1]| + |v[2]|)
  {
    if |v| > 1 {
      ValueSizes(v[..|v| - 1]);
    }
  }

  // ----- The leaf in charge of a key that comes last in it -----

  /** The grown leaf holds `keys`, each with its TIDs. */
  ghost predicate Grew(t: Tree, log: seq<Entry>, key: Value, keys: seq<Value>)
    requires Chain(t) && NodesOk(t)
  {
    var n := GrownLeaf(t, key);
    && n.isLeaf && n.keys == keys
    && forall i :: 0 <= i < |keys| ==> |n.values[i]| == |TidsOf(log, keys[i])| + if keys[i] == key then 1 else 0
  }

  lemma EntryAtEnd(m: Node, key: Value)
    requires |m.values| == |m.keys|
    requires forall i :: 0 <= i < |m.keys| ==> Rank(m.keys[i]) < Rank(key) || (i == |m.keys| - 1 && m.keys[i] == key)
    ensures var n := WithEntry(m, key, SOME_TID);
      && n.isLeaf == m.isLeaf
      && n.keys == (if key in m.keys then m.keys else m.keys + [key])
      && (forall i :: 0 <= i < |m.keys| ==> |n.values[i]| == |m.values[i]| + if m.keys[i] == key then 1 else 0)
      && (key !in m.keys ==> n.values[|m.keys|] == [SOME_TID])
  {
    assert key in m.keys <==> |m.keys| > 0 && m.keys[|m.keys| - 1] == key;
    LowerPlaceIs(m.keys, key, if key in m.keys then |m.keys| - 1 else |m.keys|);
  }

  lemma LoggedInLeaf(t: Tree, log: seq<Entry>, p: int, keys: seq<Value>)
    requires WellFormed(t, NoPending) && Files(t.contents, log, t.keyType) && HoldsKeys(t, p, keys)
    ensures t.nodes[p].isLeaf && |t.nodes[p].values| == |keys|
    ensures forall i :: 0 <= i < |keys| ==> |t.nodes[p].values[i]| == |TidsOf(log, keys[i])|
    ensures forall key :: key !in keys && Covers(t.info[p], key) ==> TidsOf(log, key) == []
  {
    var m := t.nodes[p];
    assert NodeOk(t, p);
    forall i | 0 <= i < |keys| ensures |m.values[i]| == |TidsOf(log, keys[i])| {
      assert t.contents[m.keys[i]] == m.values[i];
    }
  }

  lemma GrownAtEnd(t: Tree, log: seq<Entry>, key: Value, keys: seq<Value>)
    requires WellFormed(t, NoPending) && Files(t.contents, log, t.keyType) && key.HasType(t.keyType)
    requires HoldsKeys(t, LeafFor(t, key), keys)
    requires forall i :: 0 <= i < |keys| ==> Rank(keys[i]) < Rank(key) || (i == |keys| - 1 && keys[i] == key)
    ensures Grew(t, log, key, if key in keys then keys else keys + [key])
  {
    hide WellFormed, Chain, NodesOk, LeafFor, WithEntry, Rank, TidsOf, Files, Covers;
    TreeParts(t, NoPending);
    LoggedInLeaf(t, log, LeafFor(t, key), keys);
    EntryAtEnd(t.nodes[LeafFor(t, key)], key);
  }

  /** In a tree of one page, that page is in charge of every key. */
  lemma RootLeaf(t: Tree, key: Value)
    requires WellFormed(t, NoPending) && t.height == 1
    ensures LeafFor(t, key) == t.root && Ancestors(t, t.root) == []
  {
  }

  // ----- A VARCHAR page that overflows -----

  /** One TID under "a" and 1311 or 1312 under a string of 255 bytes: the leaf just fits. */
  lemma TwoKeySize(t: Tree, log: seq<Entry>)
    requires Chain(t) && NodesOk(t) && Grew(t, log, Text(98, 255), [Text(97, 1), Text(98, 255)])
    requires |TidsOf(log, Text(97, 1))| == 1 && |TidsOf(log, Text(98, 255))| <= 1311
    ensures !InsertSplits(t, Text(98, 255))
  {
    TextOrders(97, 1, 98, 255);
    KeySizes(Text(97, 1), Text(98, 255), Text(98, 255));
    ValueSizes(GrownLeaf(t, Text(98, 255)).values);
  }

  lemma ThreeKeyOverflow(t: Tree, log: seq<Entry>)
    requires Chain(t) && NodesOk(t) && Grew(t, log, Text(99, 255), [Text(97, 1), Text(98, 255), Text(99, 255)])
    requires |TidsOf(log, Text(97, 1))| == 1 && |TidsOf(log, Text(98, 255))| == 1312 && TidsOf(log, Text(99, 255)) == []
    ensures InsertSplits(t, Text(99, 255)) && NodeSize(UpperHalf(GrownLeaf(t, Text(99, 255)))) == 8434
    ensures !InsertFits(t, Text(99, 255))
  {
    var n := GrownLeaf(t, Text(99, 255));
    TextOrders(97, 1, 98, 255);
    TextOrders(97, 1, 99, 255);
    TextOrders(98, 255, 99, 255);
    KeySizes(Text(97, 1), Text(98, 255), Text(99, 255));
    KeySizes(Text(98, 255), Text(99, 255), Text(99, 255));
    ValueSizes(n.values);
    ValueSizes(n.values[1..]);
    assert n.keys[1..] == [Text(98, 255), Text(99, 255)];
  }

  /** A tree of one leaf, with one TID under "a" and `n` under a string of 255 bytes. */
  ghost predicate TwoKeys(t: Tree, log: seq<Entry>, n: nat) {
    && WellFormed(t, NoPending) && Tidy(t) && Kept(t, NO_PAGE) && t.keyType == VARCHAR && t.height == 1 && Files(t.contents, log, VARCHAR)
    && |TidsOf(log, Text(97, 1))| == 1 && |TidsOf(log, Text(98, 255))| == n && TidsOf(log, Text(99, 255)) == []
    && HoldsKeys(t, t.root, if n == 0 then [Text(97, 1)] else [Text(97, 1), Text(98, 255)])
  }

  method FirstKey(tid: Tid) returns (idx: DiskBTreeIndex)
    ensures fresh(idx) && idx.Valid() && TwoKeys(idx.View(), idx.log, 0)
  {
    hide WellFormed, Kept, InsertSplits, InsertSeparates, Text, HoldsKeys, Tidy, Files, AloneInLeaf, GrownLeaf, LeafFor, KeySize, Rank, Ancestors;
    idx := new DiskBTreeIndex(VARCHAR);
    FirstFits(idx.View(), idx.log, Text(97, 1));
    TextOrders(97, 1, 98, 255);
    TextOrders(97, 1, 99, 255);
    OneTidMore(idx.log, Text(97, 1), tid);
    var ok := idx.Insert(Text(97, 1), tid);
  }

  lemma OneTidMore(log: seq<Entry>, key: Value, tid: Tid)
    ensures TidsOf(log + [Entry(key, tid)], key) == TidsOf(log, key) + [tid]
    ensures forall k :: k != key ==> TidsOf(log + [Entry(key, tid)], k) == TidsOf(log, k)
  {
    forall k ensures TidsOf(log + [Entry(key, tid)], k) == TidsOf(log, k) + if key == k then [tid] else [] {
      TidsOfSnoc(log, Entry(key, tid), k);
    }
  }

  lemma FirstFits(t: Tree, log: seq<Entry>, key: Value)
    requires WellFormed(t, NoPending) && Tidy(t) && t.height == 1 && Files(t.contents, log, t.keyType) && HoldsKeys(t, t.root, [])
    requires key.HasType(t.keyType) && KeySize(key) <= 8000 && TidsOf(log, key) == []
    ensures Chain(t) && NodesOk(t) && InsertSeparates(t, key) && !InsertSplits(t, key)
    ensures LeafFor(t, key) == t.root && GrownLeaf(t, key).keys == [key]
  {
    hide WellFormed, HoldsKeys, Tidy, Files, TidsOf;
    RootLeaf(t, key);
    TreeParts(t, NoPending);
    GrownAtEnd(t, log, key, []);
    TidySeparates(t, key);
    KeySizes(key, key, key);
    ValueSizes(GrownLeaf(t, key).values);
  }

  lemma SecondKeyFits(t: Tree, log: seq<Entry>, n: nat)
    requires TwoKeys(t, log, n) && n < 1312
    ensures Chain(t) && NodesOk(t) && InsertSeparates(t, Text(98, 255)) && !InsertSplits(t, Text(98, 255))
    ensures LeafFor(t, Text(98, 255)) == t.root && GrownLeaf(t, Text(98, 255)).keys == [Text(97, 1), Text(98, 255)]
  {
    hide WellFormed, Kept, InsertSplits, InsertSeparates, Text, HoldsKeys, Tidy, Files, TidsOf, Rank, LeafFor, Ancestors;
    var key := Text(98, 255);
    var keys := if n == 0 then [Text(97, 1)] else [Text(97, 1), key];
    TextOrders(97, 1, 98, 255);
    RootLeaf(t, key);
    TreeParts(t, NoPending);
    GrownAtEnd(t, log, key, keys);
    TidySeparates(t, key);
    TwoKeySize(t, log);
  }

  method SecondKey(idx: DiskBTreeIndex, ghost n: nat, tid: Tid)
    requires idx.Valid() && TwoKeys(idx.View(), idx.log, n) && n < 1312
    modifies idx
    ensures idx.Valid() && TwoKeys(idx.View(), idx.log, n + 1)
  {
    hide WellFormed, Kept, InsertSplits, Text, HoldsKeys, Tidy, Files, TidsOf, AloneInLeaf, GrownLeaf, LeafFor;
    SecondKeyFits(idx.View(), idx.log, n);
    TextOrders(97, 1, 98, 255);
    TextOrders(98, 255, 99, 255);
    OneTidMore(idx.log, Text(98, 255), tid);
    var ok := idx.Insert(Text(98, 255), tid);
  }

  /** After one "a" and 1312 TIDs under a string of 255 bytes, another string of 255 bytes cannot be
      inserted, though a page could hold all TIDs of either key. */
  method VarcharOverflow(tid: Tid) returns (idx: DiskBTreeIndex)
    ensures fresh(idx) && idx.Valid() && Tidy(idx.View()) && Kept(idx.View(), NO_PAGE) && idx.keyType == VARCHAR
    ensures |TidsOf(idx.log, Text(98, 255))| == 1312 && SingleKeySize(Text(98, 255), 1312) <= PAGE_CAPACITY
    ensures TidsOf(idx.log, Text(99, 255)) == [] && SingleKeySize(Text(99, 255), 1) <= PAGE_CAPACITY
    ensures InsertSeparates(idx.View(), Text(99, 255)) && !InsertFits(idx.View(), Text(99, 255))
  {
    hide WellFormed, Kept, InsertSplits, Text, HoldsKeys, Tidy, Files, TidsOf;
    idx := FirstKey(tid);
    for n := 0 to 1312
      invariant fresh(idx) && idx.Valid() && TwoKeys(idx.View(), idx.log, n)
    {
      SecondKey(idx, n, tid);
    }
    ThirdKeyOverflows(idx.View(), idx.log);
  }

  lemma ThirdKeyOverflows(t: Tree, log: seq<Entry>)
    requires TwoKeys(t, log, 1312)
    ensures Chain(t) && NodesOk(t) && InsertSeparates(t, Text(99, 255)) && !InsertFits(t, Text(99, 255))
  {
    hide WellFormed, Kept, InsertSplits, InsertSeparates, InsertFits, Text, HoldsKeys, Tidy, Files, TidsOf, LeafFor, GrownLeaf, Ancestors, Rank,
      KeySize;
    TextOrders(97, 1, 99, 255);
    TextOrders(98, 255, 99, 255);
    RootLeaf(t, Text(99, 255));
    TreeParts(t, NoPending);
    GrownAtEnd(t, log, Text(99, 255), [Text(97, 1), Text(98, 255)]);
    TidySeparates(t, Text(99, 255));
    ThreeKeyOverflow(t, log);
  }

  // ----- A metadata page that is behind -----

  /** The keys from `a` up to, but without, `b`. */
  function Upto(a: nat, b: nat): (s: seq<Value>)
    requires a <= b <= 1000
    ensures |s| == b - a && forall i :: 0 <= i < b - a ==> s[i] == Int64(a + i)
  {
    seq(b - a, i requires 0 <= i < b - a => Int64(a + i))
  }

  /** One TID each under the keys 0 to n - 1. */
  ghost predicate OneEach(t: Tree, log: seq<Entry>, n: nat) {
    && WellFormed(t, NoPending) && Kept(t, NO_PAGE) && t.keyType == INT64 && Files(t.contents, log, INT64)
    && forall c: nat :: c <= 1000 ==> |TidsOf(log, Int64(c))| == if c < n then 1 else 0
  }

  lemma OneEachMore(log: seq<Entry>, n: nat, tid: Tid)
    requires n < 1000 && forall c: nat :: c <= 1000 ==> |TidsOf(log, Int64(c))| == if c < n then 1 else 0
    ensures forall c: nat :: c <= 1000 ==> |TidsOf(log + [Entry(Int64(n), tid)], Int64(c))| == if c < n + 1 then 1 else 0
  {
    OneTidMore(log, Int64(n), tid);
  }

  lemma {:induction false} OneTidEach(v: seq<seq<Tid>>)
    requires forall i :: 0 <= i < |v| ==> |v[i]| == 1
    ensures ValuesSize(v) == 10 * |v|
  {
    if v != [] {
      OneTidEach(v[..|v| - 1]);
    }
  }

  /** The leaf that ends with key n - 1 takes key n; it is split when it has 453 keys. */
  lemma NextInLeaf(t: Tree, log: seq<Entry>, a: nat, n: nat)
    requires OneEach(t, log, n) && a <= n < 1000 && HoldsKeys(t, LeafFor(t, Int64(n)), Upto(a, n))
    ensures Chain(t) && NodesOk(t) && InsertSeparates(t, Int64(n)) && InsertFits(t, Int64(n))
    ensures GrownLeaf(t, Int64(n)).keys == Upto(a, n + 1)
    ensures InsertSplits(t, Int64(n)) <==> n + 1 - a >= 453
  {
    hide WellFormed, HoldsKeys, Files, TidsOf, Kept, LeafFor, GrownLeaf, InsertSeparates, InsertFits, Upto;
    TreeParts(t, NoPending);
    Int64Takes(t, Int64(n), log);
    AppendedKeys(a, n);
    GrownAtEnd(t, log, Int64(n), Upto(a, n));
    Int64KeysSize(Upto(a, n + 1));
    OneTidEach(GrownLeaf(t, Int64(n)).values);
  }

  lemma AppendedKeys(a: nat, n: nat)
    requires a <= n < 1000
    ensures Int64(n) !in Upto(a, n) && Upto(a, n) + [Int64(n)] == Upto(a, n + 1)
    ensures forall i :: 0 <= i < n - a ==> Rank(Upto(a, n)[i]) < Rank(Int64(n))
  {
  }

  /** The first page holds all keys. */
  ghost predicate OneLeaf(t: Tree, log: seq<Entry>, n: nat)
    requires n <= 1000
  {
    OneEach(t, log, n) && t.height == 1 && HoldsKeys(t, t.root, Upto(0, n))
  }

  lemma NothingYet(t: Tree, log: seq<Entry>)
    requires WellFormed(t, NoPending) && Kept(t, NO_PAGE) && t.keyType == INT64 && Files(t.contents, log, INT64) && log == []
    requires t.height == 1 && HoldsKeys(t, t.root, [])
    ensures OneLeaf(t, log, 0)
  {
    assert Upto(0, 0) == [];
  }

  method FillFirst(idx: DiskBTreeIndex, n: nat, tid: Tid)
    requires idx.Valid() && n < 452 && OneLeaf(idx.View(), idx.log, n)
    modifies idx
    ensures idx.Valid() && OneLeaf(idx.View(), idx.log, n + 1) && |idx.log| == old(|idx.log|) + 1
  {
    hide WellFormed, Kept, Files, TidsOf, HoldsKeys, Upto, LeafFor, GrownLeaf, InsertFits, InsertSeparates, InsertSplits, Ancestors;
    RootLeaf(idx.View(), Int64(n));
    NextInLeaf(idx.View(), idx.log, 0, n);
    OneEachMore(idx.log, n, tid);
    var ok := idx.Insert(Int64(n), tid);
  }

  lemma OnlyLeaf(t: Tree)
    requires WellFormed(t, NoPending) && t.height == 1
    ensures forall x :: x in t.leaves ==> x == t.root
  {
    forall i | 0 <= i < |t.leaves| ensures t.leaves[i] == t.root {
      assert LinkOk(t, i);
    }
  }

  /** Two leaves under a root with one key: 226 keys in the left leaf, the rest in the right one. */
  ghost predicate TwoLeaves(t: Tree, log: seq<Entry>, p: int, r: int, n: nat)
    requires 226 <= n <= 1000
  {
    && OneEach(t, log, n) && t.height == 2
    && HoldsKeys(t, p, Upto(0, 226)) && HoldsKeys(t, r, Upto(226, n)) && p != r
    && RootHolds(t, Int64(226)) && forall x :: x in t.leaves ==> x == p || x == r
  }

  lemma FirstSplit(t: Tree, log: seq<Entry>)
    requires OneLeaf(t, log, 452)
    ensures Chain(t) && NodesOk(t) && LeafFor(t, Int64(452)) == t.root && Ancestors(t, t.root) == []
    ensures InsertSeparates(t, Int64(452)) && InsertFits(t, Int64(452)) && InsertSplits(t, Int64(452)) && InsertGrows(t, Int64(452))
    ensures GrownLeaf(t, Int64(452)).keys == Upto(0, 453) && Middle(Upto(0, 453)) == Int64(226)
    ensures Upto(0, 453)[..226] == Upto(0, 226) && Upto(0, 453)[226..] == Upto(226, 453)
  {
    hide WellFormed, Kept, Files, TidsOf, HoldsKeys, Upto, LeafFor, GrownLeaf, InsertFits, InsertSeparates, Ancestors;
    RootLeaf(t, Int64(452));
    NextInLeaf(t, log, 0, 452);
  }

  method SplitFirst(idx: DiskBTreeIndex, tid: Tid) returns (ghost p: int, ghost r: int)
    requires idx.Valid() && OneLeaf(idx.View(), idx.log, 452)
    modifies idx
    ensures idx.Valid() && TwoLeaves(idx.View(), idx.log, p, r, 453) && |idx.log| == old(|idx.log|) + 1
  {
    hide WellFormed, Kept, Files, TidsOf, HoldsKeys, RootHolds, Upto, LeafFor, GrownLeaf, InsertFits, InsertSeparates, InsertSplits,
      InsertGrows, Ancestors, Middle, PagesFit, Inserted;
    FirstSplit(idx.View(), idx.log);
    OneEachMore(idx.log, 452, tid);
    OnlyLeaf(idx.View());
    p, r := idx.meta.rootPageID, idx.meta.nextPageID;
    RootIsStored(idx.View());
    var ok := idx.Insert(Int64(452), tid);
  }

  lemma RootIsStored(t: Tree)
    requires WellFormed(t, NoPending)
    ensures t.root in t.nodes
  {
  }

  lemma LastLeaf(t: Tree, log: seq<Entry>, p: int, r: int, n: nat)
    requires 453 <= n < 1000 && TwoLeaves(t, log, p, r, n)
    ensures LeafFor(t, Int64(n)) == r
  {
    var x := LeafFor(t, Int64(n));
    assert NodeOk(t, p) && NodeOk(t, r);
    assert Covers(t.info[p], t.nodes[p].keys[0]) && Covers(t.info[r], t.nodes[r].keys[0]);
    var i :| 0 <= i < |t.leaves| && t.leaves[i] == p;
    var j :| 0 <= j < |t.leaves| && t.leaves[j] == r;
    assert i < j ==> Precedes(t, t.leaves[i], t.leaves[j]);
    assert j < i ==> Precedes(t, t.leaves[j], t.leaves[i]);
  }

  method FillSecond(idx: DiskBTreeIndex, ghost p: int, ghost r: int, n: nat, tid: Tid)
    requires idx.Valid() && 453 <= n < 678 && TwoLeaves(idx.View(), idx.log, p, r, n)
    modifies idx
    ensures idx.Valid() && TwoLeaves(idx.View(), idx.log, p, r, n + 1) && |idx.log| == old(|idx.log|) + 1
  {
    hide WellFormed, Kept, Files, TidsOf, Upto, LeafFor, GrownLeaf, InsertFits, InsertSeparates, InsertSplits, Ancestors, PagesFit, HoldsKeys, RootHolds;
    LastLeaf(idx.View(), idx.log, p, r, n);
    NextInLeaf(idx.View(), idx.log, 226, n);
    OneEachMore(idx.log, n, tid);
    RootIsInner(idx.View(), r);
    ghost var t, log := idx.View(), idx.log;
    var ok := idx.Insert(Int64(n), tid);
    RightLeafGrew(t, idx.View(), log, idx.log, p, r, n);
  }

  lemma RightLeafGrew(t: Tree, t': Tree, log: seq<Entry>, log': seq<Entry>, p: int, r: int, n: nat)
    requires 453 <= n < 678 && TwoLeaves(t, log, p, r, n) && OneEach(t', log', n + 1) && t.root != r
    requires HoldsKeys(t', r, Upto(226, n + 1)) && t' == t.(nodes := t.nodes[r := t'.nodes[r]], contents := t'.contents)
    ensures TwoLeaves(t', log', p, r, n + 1)
  {
    hide OneEach, Upto;
  }

  lemma RootIsInner(t: Tree, r: int)
    requires WellFormed(t, NoPending) && t.height == 2 && r in t.info && t.info[r].level == 0
    ensures t.root != r
  {
  }

  lemma OneAncestor(t: Tree, r: int, key: Value)
    requires WellFormed(t, NoPending) && t.height == 2 && r in t.info && t.info[r].level == 0 && RootHolds(t, key)
    ensures t.root in t.info && Ancestors(t, r) == [Above([key], t.info[t.root].hi)]
  {
    AncestorsUnfold(t, NoPending, r);
    AncestorsUnfold(t, NoPending, t.root);
    assert ParentOk(t, r);
  }

  /** The split of the right leaf adds a second key to the root, which has room for it. */
  lemma SecondSplit(t: Tree, log: seq<Entry>, p: int, r: int)
    requires TwoLeaves(t, log, p, r, 678)
    ensures Chain(t) && NodesOk(t)
    ensures InsertSeparates(t, Int64(678)) && InsertSplits(t, Int64(678)) && InsertFits(t, Int64(678)) && !InsertGrows(t, Int64(678))
  {
    hide WellFormed, Kept, Files, TidsOf, Upto, LeafFor, GrownLeaf, InsertFits, InsertSeparates, InsertSplits, Ancestors, WithSeparator;
    LastLeaf(t, log, p, r, 678);
    OneAncestor(t, r, Int64(226));
    NextInLeaf(t, log, 226, 678);
    assert Typed(WithSeparator([Int64(226)], Middle(Upto(226, 679))), INT64) by {
      SeparatorTyped([Int64(226)], Middle(Upto(226, 679)));
    }
    InnerSizeInt64(WithSeparator([Int64(226)], Middle(Upto(226, 679))));
  }

  /** Inserting the keys 0 to 678 leaves a metadata page that no longer says which pages are in use: the last
      insert splits a leaf below a root that is not split itself. */
  method StaleMetaPage(tid: Tid) returns (idx: DiskBTreeIndex)
    ensures fresh(idx) && idx.Valid() && Kept(idx.View(), NO_PAGE) && idx.keyType == INT64 && |idx.log| == 679
    ensures idx.metaPage.nextPageID in idx.nodes
  {
    hide WellFormed, Kept, Files, TidsOf, HoldsKeys, RootHolds, LeafFor, GrownLeaf, InsertFits, InsertSeparates, InsertSplits,
      InsertGrows, Ancestors, PagesFit, Inserted;
    idx := new DiskBTreeIndex(INT64);
    NothingYet(idx.View(), idx.log);
    for n := 0 to 452
      invariant fresh(idx) && idx.Valid() && OneLeaf(idx.View(), idx.log, n) && |idx.log| == n
    {
      FillFirst(idx, n, tid);
    }
    ghost var p, r := SplitFirst(idx, tid);
    for n := 453 to 678
      invariant fresh(idx) && idx.Valid() && TwoLeaves(idx.View(), idx.log, p, r, n) && |idx.log| == n
    {
      FillSecond(idx, p, r, n, tid);
    }
    SecondSplit(idx.View(), idx.log, p, r);
    var ok := idx.Insert(Int64(678), tid);
  }

  // ----- Whole runs -----

  lemma {:induction false} TidsOfPrefix(log: seq<Entry>, i: nat, key: Value)
    requires i <= |log|
    ensures |TidsOf(log[..i], key)| <= |TidsOf(log, key)|
  {
    if i < |log| {
      TidsOfPrefix(log[..|log| - 1], i, key);
      assert log[..|log| - 1][..i] == log[..i];
    } else {
      assert log[..i] == log;
    }
  }

  /** Any run of inserts of short keys into a new index goes through if and only if each entry is taken by the
      index that holds the entries before it, and then leaves exactly its entries. Over INT64 it goes through if
      and only if no key is inserted more than 1357 times. */
  method InsertRun(keyType: Type, entries: seq<Entry>) returns (idx: DiskBTreeIndex, ok: bool)
    requires LogHasType(entries, keyType) && forall i :: 0 <= i < |entries| ==> KeySize(entries[i].key) <= SHORT_KEY
    ensures ok <==> AllTaken(keyType, entries)
    ensures ok ==> fresh(idx) && idx.Valid() && idx.log == entries && idx.keyType == keyType && Kept(idx.View(), NO_PAGE)
    ensures ok ==> idx.View() == Built(keyType, entries)
    ensures keyType == INT64 ==> (ok <==> forall k :: |TidsOf(entries, k)| <= MAX_TIDS)
  {
    hide WellFormed, Kept, InsertFits, InsertSeparates, InsertSplits, InsertGrows, TidsOf, LeafTook, KeySize,
      EmptyTree, Inserted, AllTaken, Built, Files, PagesFit;
    idx := new DiskBTreeIndex(keyType);
    NoneTaken(keyType);
    ok := true;
    for i := 0 to |entries|
      invariant ok && fresh(idx) && idx.Valid() && idx.keyType == keyType && idx.log == entries[..i] && Kept(idx.View(), NO_PAGE)
      invariant AllTaken(keyType, entries[..i]) && idx.View() == Built(keyType, entries[..i])
    {
      var key := entries[i].key;
      TreeParts(idx.View(), NoPending);
      idx.ShortSeparates(key);
      assert entries[..i + 1] == entries[..i] + [entries[i]];
      TidsOfSnoc(entries[..i], entries[i], key);
      TidsOfPrefix(entries, i + 1, key);
      OneMoreTaken(keyType, entries[..i], entries[i]);
      ok := idx.Insert(key, entries[i].tid);
      if !ok {
        PrefixTaken(keyType, entries, i);
        return;
      }
    }
    assert entries[..|entries|] == entries;
    if keyType == INT64 {
      forall k ensures |TidsOf(entries, k)| <= MAX_TIDS {
        idx.TidsBound(k);
      }
    }
  }
}
