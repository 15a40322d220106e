/** What every insert keeps besides the page graph, step by step, and when an insert goes through. */
module BTreeKept {
  import opened Values
  import opened Pages
  import opened KeyCodec
  import opened IndexLog
  import opened BTreeShape
  import opened BTreePages
  import opened BTreeSteps
  import opened BTreeCascade
  import opened BTreeInt64
  import opened BTreeSeparators

  /** What inserts of short keys keep, in every reachable state: separators repeat at most twice; over INT64
      all pages (but for `except`) fit, and internal pages have their share of keys. */
  ghost predicate Kept(t: Tree, except: int) {
    && Near(t)
    && (t.keyType == INT64 ==>
          && Int64Pages(t, except)
          && (except in t.info && except in t.nodes && t.info[except].level > 0 ==> |t.nodes[except].keys| <= MAX_INNER_KEYS + 1))
  }

  /** The grown leaf can be divided: there is slack for one key alone, and over INT64 both halves fit. */
  ghost predicate Divisible(t: Tree, n: Node) {
    && |n.keys| >= 1 && (|n.keys| == 1 ==> Slack(t, n.keys[0]))
    && (t.keyType == INT64 ==> HalvesFit(n))
  }

  /** A short separator is reported; over INT64 a divided internal page kept its share of keys. */
  ghost predicate Reportable(t: Tree, q: Pending, key: Value) {
    && KeySize(key) <= SHORT_KEY
    && (q.Pending? && q.left in t.info && q.left in t.nodes && t.info[q.left].level > 0 && t.keyType == INT64 ==>
          |t.nodes[q.left].keys| >= MIN_INNER_KEYS)
  }

  // ----- The page updates -----

  /** Adding the entry to its leaf, before anything is split. */
  lemma KeptLeafInsert(t: Tree, t': Tree, m: Node, n: Node, i: nat, key: Value, tid: Tid, log: seq<Entry>)
    requires WellFormed(t, NoPending) && Kept(t, NO_PAGE) && Files(t.contents, log, t.keyType)
    requires m.pageID in t.info && m.pageID in t.nodes && m == t.nodes[m.pageID] && t.info[m.pageID].level == 0 && n.pageID == m.pageID
    requires key.HasType(t.keyType) && KeySize(key) <= SHORT_KEY && Covers(t.info[m.pageID], key)
    requires EntryAdded(m, n, i, key, tid) && |n.keys| >= 1 && key in n.keys
    requires t' == t.(nodes := t.nodes[n.pageID := n],
                      contents := t.contents[key := (if key in t.contents then t.contents[key] else []) + [tid]])
    ensures Kept(t', n.pageID)
    ensures (t.keyType == INT64 ==> |TidsOf(log, key)| + 1 <= MAX_TIDS) ==> Divisible(t', n)
  {
    hide WellFormed, Near, Int64Pages, HalvesFit, Files, TidsOf, EntryAdded, Slack, Covers;
    EntryKeys(m, n, i, key, tid);
    LeafPage(t, m);
    NearLeafInsert(t, t', n, key, tid);
    if t.keyType == INT64 {
      LeafReplaced(t, t', n);
      if |TidsOf(log, key)| + 1 <= MAX_TIDS {
        HalvesOfGrownFit(t, m, n, i, key, tid, log);
      }
    }
  }

  lemma EntryKeys(m: Node, n: Node, i: nat, key: Value, tid: Tid)
    requires EntryAdded(m, n, i, key, tid)
    ensures KeysFrom(m, n, key)
  {
    if !(i < |m.keys| && m.keys[i] == key) {
      InsertedKeys(m.keys, i, key);
    }
  }

  lemma LeafPage(t: Tree, m: Node)
    requires WellFormed(t, NoPending) && m.pageID in t.info && t.info[m.pageID].level == 0
    ensures Domain(t)
  {
  }

  lemma LeafReplaced(t: Tree, t': Tree, n: Node)
    requires Int64Pages(t, NO_PAGE) && n.pageID in t.info && t.info[n.pageID].level == 0
    requires t' == t.(nodes := t.nodes[n.pageID := n], contents := t'.contents) && NO_PAGE !in t.info
    ensures Int64Pages(t', n.pageID)
  {
  }

  lemma LeafWrittenKept(t: Tree, n: Node)
    requires n.pageID in t.nodes && t.nodes[n.pageID] == n && NodeSize(n) <= PAGE_CAPACITY && WellFormed(t, NoPending)
    ensures Kept(t, n.pageID) ==> Kept(t, NO_PAGE)
  {
    hide Near;
  }

  lemma KeptLeafSplit(t: Tree, t': Tree, n: Node, mid: nat, j: nat, low: Node, up: Node)
    requires WellFormed(t, NoPending) && LeafSplit(t, t', n, mid, j, low, up) && mid == |n.keys| / 2
    requires Kept(t, n.pageID) && Divisible(t, n) && NodeSize(n) > PAGE_CAPACITY && |n.values| == |n.keys| && SplitFits(n)
    ensures Kept(t', NO_PAGE) && Reportable(t', Pending(n.pageID, t.next), n.keys[mid])
  {
    hide Near, Int64Pages, HalvesFit, Slack;
    LoneUpper(n);
    LeafSplitParts(t, t', n, mid, j, low, up);
    NearLeafSplit(t, t', n, mid, j, low, up);
    if t.keyType == INT64 {
      LeafSplitInt64(t, t', n, mid, j, low, up);
    }
    NearShort(t, n.pageID, mid);
  }

  lemma LoneUpper(n: Node)
    requires |n.values| == |n.keys| && SplitFits(n)
    ensures |n.keys| == 1 ==> NodeSize(n) <= PAGE_SIZE
  {
    if |n.keys| == 1 {
      assert n.keys[0..] == n.keys && n.values[0..] == n.values;
    }
  }

  lemma LeafSplitParts(t: Tree, t': Tree, n: Node, mid: nat, j: nat, low: Node, up: Node)
    requires WellFormed(t, NoPending) && LeafSplit(t, t', n, mid, j, low, up)
    ensures Domain(t) && NodesOk(t) && Chain(t) && n.isLeaf && t'.keyType == t.keyType
    ensures n.pageID in t'.info && t'.info[n.pageID].level == 0 && NO_PAGE !in t'.info
  {
    assert NodeOk(t, n.pageID);
  }

  lemma NearShort(t: Tree, p: int, i: nat)
    requires Near(t) && p in t.info && p in t.nodes && i < |t.nodes[p].keys|
    ensures KeySize(t.nodes[p].keys[i]) <= SHORT_KEY
  {
    assert NearNode(t, p);
  }

  lemma KeptAttach(t: Tree, t': Tree, q: Pending, key: Value, n: Node, n': Node)
    requires WellFormed(t, q) && q.Pending? && q.left != t.root
    requires Attached(t, t', q, key, n, n') && Kept(t, NO_PAGE) && Reportable(t, q, key)
    ensures Kept(t', n.pageID)
  {
    hide Near, Int64Pages;
    NearAttach(t, t', q, key, n, n');
    if t.keyType == INT64 {
      AttachInt64(t, t', q, key, n, n');
    }
  }

  lemma KeptInnerSplit(t: Tree, t': Tree, n: Node, mid: nat, low: Node, up: Node)
    requires WellFormed(t, NoPending) && InnerSplit(t, t', n, mid, low, up)
    requires Kept(t, n.pageID) && mid == |n.keys| / 2 && NodeSize(n) > PAGE_CAPACITY
    ensures Kept(t', NO_PAGE) && Reportable(t', Pending(n.pageID, t.next), n.keys[mid])
  {
    hide Near, Int64Pages;
    InnerSplitSetup(t, n);
    InnerNodeSize(n);
    NearInnerSplit(t, t', n, mid, low, up);
    if t.keyType == INT64 {
      InnerSplitInt64(t, t', n, mid, low, up);
    }
    NearShort(t, n.pageID, mid);
  }

  lemma KeptRooted(t: Tree, t': Tree, q: Pending, key: Value)
    requires WellFormed(t, q) && Rooted(t, t', q, key) && Kept(t, NO_PAGE) && Reportable(t, q, key)
    ensures Kept(t', NO_PAGE)
  {
    hide Near, Int64Pages;
    NearRooted(t, t', q, key);
    if t.keyType == INT64 {
      RootedInt64(t, t', q, key);
    }
  }

  // ----- Adding an entry -----

  /** `n` is the leaf in charge of `key` with the entry added, and `t'` the tree with `n` in its place;
      `log` is the log before. */
  ghost predicate Added(t: Tree, t': Tree, n: Node, key: Value, log: seq<Entry>)
    requires Chain(t) && NodesOk(t)
  {
    && n.pageID == LeafFor(t, key) && SameShape(n, GrownLeaf(t, key)) && |n.values| == |n.keys| >= 1
    && WellFormed(t', NoPending) && Ancestors(t', n.pageID) == Ancestors(t, n.pageID)
    && (Tidy(t) ==> Tidy(t'))
    && (|n.keys| == 1 && NodeSize(n) > PAGE_CAPACITY <==>
          AloneInLeaf(t, key) && SingleKeySize(key, |TidsOf(log, key)| + 1) > PAGE_CAPACITY)
    && (Kept(t, NO_PAGE) && KeySize(key) <= SHORT_KEY ==>
          && Kept(t', n.pageID)
          && ((t.keyType == INT64 ==> |TidsOf(log, key)| + 1 <= MAX_TIDS) ==> Divisible(t', n)))
  }

  /** What was read off the tree before the insert, in terms of the grown leaf. */
  lemma AddedForesees(t: Tree, t': Tree, n: Node, key: Value, log: seq<Entry>)
    requires Chain(t) && NodesOk(t) && Added(t, t', n, key, log)
    ensures n.pageID == LeafFor(t, key) && n.keys == GrownLeaf(t, key).keys && |n.values| == |n.keys| >= 1 && WellFormed(t', NoPending)
    ensures InsertSplits(t, key) <==> NodeSize(n) > PAGE_CAPACITY
    ensures NodeSize(n) > PAGE_CAPACITY ==>
      var up := Ancestors(t', n.pageID);
      && up == Ancestors(t, LeafFor(t, key))
      && (InsertFits(t, key) <==> SplitFits(n) && CascadeFits(up, Middle(n.keys)))
      && (InsertSeparates(t, key) <==> CascadeSeparates(up, Middle(n.keys)))
      && (InsertGrows(t, key) <==> CascadeGrows(up, Middle(n.keys)))
    ensures NodeSize(n) <= PAGE_CAPACITY ==> InsertFits(t, key) && !InsertGrows(t, key)
  {
    hide WellFormed, NodeSize, SplitFits, CascadeFits, CascadeSeparates, CascadeGrows, GrownLeaf, Ancestors, Kept, Divisible, Tidy;
    SameSizes(n, GrownLeaf(t, key));
  }

  /** When one key alone overflows its leaf, and what is kept. */
  lemma AddedKeeps(t: Tree, t': Tree, n: Node, key: Value, log: seq<Entry>)
    requires Chain(t) && NodesOk(t) && Added(t, t', n, key, log)
    ensures Tidy(t) ==> Tidy(t')
    ensures |n.keys| == 1 && NodeSize(n) > PAGE_CAPACITY <==>
      AloneInLeaf(t, key) && SingleKeySize(key, |TidsOf(log, key)| + 1) > PAGE_CAPACITY
    ensures Kept(t, NO_PAGE) && KeySize(key) <= SHORT_KEY ==>
      && Kept(t', n.pageID)
      && ((t.keyType == INT64 ==> |TidsOf(log, key)| + 1 <= MAX_TIDS) ==> Divisible(t', n))
  {
    hide WellFormed, Chain, NodesOk, Tidy, AloneInLeaf, NodeSize, SingleKeySize, TidsOf, Kept, Divisible, Ancestors, SameShape, GrownLeaf, LeafFor;
  }

  lemma AddStep(t: Tree, t': Tree, m: Node, n: Node, i: nat, key: Value, tid: Tid, log: seq<Entry>)
    requires WellFormed(t, NoPending) && Files(t.contents, log, t.keyType) && Chain(t) && NodesOk(t)
    requires m.pageID in t.info && m.pageID in t.nodes && m == t.nodes[m.pageID] && t.info[m.pageID].level == 0 && |m.values| == |m.keys|
    requires key.HasType(t.keyType) && Covers(t.info[m.pageID], key)
    requires EntryAdded(m, n, i, key, tid) && Increasing(n.keys) && n == WithEntry(m, key, tid)
    requires t' == t.(nodes := t.nodes[m.pageID := n],
                      contents := t.contents[key := (if key in t.contents then t.contents[key] else []) + [tid]])
    ensures Added(t, t', n, key, log)
  {
    hide WellFormed, Chain, NodesOk, Tidy, Files, TidsOf, Rank, EntryAdded, Kept, Divisible, WithEntry,
      AloneInLeaf, Covers, NodeSize, SingleKeySize, Ancestors, LeafFor, SameShape, GrownLeaf;
    GrownLeafIs(t, m, n, key, tid);
    LeafInsertStep(t, t', m, n, i, key, tid);
    LeafReplacedAncestors(t, t', n);
    AloneSetup(t, m, n, i, key, tid);
    FilesSnoc(t.contents, log, t.keyType, Entry(key, tid));
    if Kept(t, NO_PAGE) && KeySize(key) <= SHORT_KEY {
      KeptLeafInsert(t, t', m, n, i, key, tid, log);
    }
  }

  // ----- Exactly when an INT64 tree takes an entry -----

  /** A leaf with too many TIDs under one key can be neither written nor divided. */
  lemma TooManyNeverFit(n: Node, i: nat)
    requires n.isLeaf && |n.values| == |n.keys| && Typed(n.keys, INT64) && i < |n.keys| && |n.values[i]| > MAX_TIDS
    ensures NodeSize(n) > PAGE_CAPACITY && !SplitFits(n)
  {
    var mid := |n.keys| / 2;
    FitsIsCounted(n, i);
    Int64KeysSize(n.keys);
    ValuesSizeUpdate(n.values, i, []);
    if i < mid {
      HalfTooBig(LowerHalf(n), i);
    } else {
      HalfTooBig(UpperHalf(n), i - mid);
    }
  }

  lemma HalfTooBig(n: Node, i: nat)
    requires n.isLeaf && |n.values| == |n.keys| && Typed(n.keys, INT64) && i < |n.keys| && |n.values[i]| > MAX_TIDS
    ensures NodeSize(n) > PAGE_SIZE
  {
    Int64KeysSize(n.keys);
    ValuesSizeUpdate(n.values, i, []);
  }

  /** How many TIDs the grown leaf holds under the new key. */
  lemma GrownCount(t: Tree, key: Value, log: seq<Entry>) returns (i: nat)
    requires WellFormed(t, NoPending) && Files(t.contents, log, t.keyType) && key.HasType(t.keyType)
    ensures var m := t.nodes[LeafFor(t, key)];
      |m.values| == |m.keys| && m.pageID == LeafFor(t, key)
      && EntryAdded(m, GrownLeaf(t, key), LowerPlace(m.keys, key), key, SOME_TID)
    ensures i < |GrownLeaf(t, key).keys| && GrownLeaf(t, key).keys[i] == key
    ensures |GrownLeaf(t, key).values[i]| == |TidsOf(log, key)| + 1
  {
    var m := t.nodes[LeafFor(t, key)];
    assert NodeOk(t, LeafFor(t, key));
    WithEntryAdds(m, key, SOME_TID, t.keyType);
    i := LowerPlace(m.keys, key);
    InsertedKeys(m.keys, i, key);
  }

  /** An INT64 index takes an entry exactly while its key has fewer than 1357 TIDs, whatever the
      order of the inserts before. */
  lemma Int64Takes(t: Tree, key: Value, log: seq<Entry>)
    requires WellFormed(t, NoPending) && t.keyType == INT64 && Kept(t, NO_PAGE) && key.Int64? && Files(t.contents, log, INT64)
    ensures InsertFits(t, key) <==> |TidsOf(log, key)| + 1 <= MAX_TIDS
    ensures InsertSeparates(t, key)
  {
    hide WellFormed, GrownLeaf, SplitFits, Divisible, InsertSeparates, Files, TidsOf, EntryAdded, HalvesFit, Near;
    TreeParts(t, NoPending);
    NearSeparates(t, key);
    Int64InsertFits(t, key);
    GrownLeafKeys(t, key);
    var i := GrownCount(t, key, log);
    var m, n := t.nodes[LeafFor(t, key)], GrownLeaf(t, key);
    if |TidsOf(log, key)| + 1 <= MAX_TIDS {
      HalvesOfGrownFit(t, m, n, LowerPlace(m.keys, key), key, SOME_TID, log);
      HalvesSplit(n);
    } else {
      TooManyNeverFit(n, i);
    }
  }

  lemma HalvesSplit(n: Node)
    requires HalvesFit(n)
    ensures |n.values| == |n.keys| && SplitFits(n)
  {
  }
}
