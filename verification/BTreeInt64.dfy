/** Page arithmetic for INT64 keys: which pages an insert can make too big for a disk page. */
module BTreeInt64 {
  import opened Values
  import opened Pages
  import opened KeyCodec
  import opened IndexLog
  import opened BTreeShape
  import opened BTreePages
  import opened BTreeSteps
  import opened BTreeCascade

  /** The most TIDs one INT64 key can have: 34 + 8 + 4 + 6 * 1357 = 8188 bytes. */
  const MAX_TIDS: nat := 1357
  /** An internal page fits with 678 keys and 679 children: 34 + 8 * 678 + 4 * 679 = 8174 bytes. */
  const MAX_INNER_KEYS: nat := 678
  const MIN_INNER_KEYS: nat := 339

  /** What an insert may leave on disk: within capacity, except that a leaf that cannot be
      divided may use the last ten bytes of the page. */
  predicate PageFits(n: Node) {
    NodeSize(n) <= PAGE_SIZE && (NodeSize(n) <= PAGE_CAPACITY || (n.isLeaf && |n.keys| == 1))
  }

  /** Every page fits (but for `except`), and every internal page has its share of keys. */
  ghost predicate Int64Pages(t: Tree, except: int) {
    forall p :: p in t.info ==>
      && p in t.nodes
      && (p != except ==> PageFits(t.nodes[p]))
      && (t.info[p].level > 0 ==> |t.nodes[p].keys| >= if p == t.root then 1 else MIN_INNER_KEYS)
  }

  /** Both halves of a leaf split fit. */
  ghost predicate HalvesFit(n: Node) {
    var mid := |n.keys| / 2;
    && |n.values| == |n.keys|
    && PageFits(n.(keys := n.keys[..mid], values := n.values[..mid]))
    && PageFits(n.(keys := n.keys[mid..], values := n.values[mid..]))
  }

  // ----- Sizes -----

  lemma {:induction false} Int64KeysSize(keys: seq<Value>)
    requires Typed(keys, INT64)
    ensures KeysSize(keys) == 8 * |keys|
  {
    if keys != [] {
      assert Typed(keys[..|keys| - 1], INT64);
      Int64KeysSize(keys[..|keys| - 1]);
    }
  }

  lemma Int64InnerFits(n: Node)
    requires !n.isLeaf && Typed(n.keys, INT64) && |n.children| == |n.keys| + 1
    ensures NodeSize(n) == 38 + 12 * |n.keys|
    ensures PageFits(n) <==> |n.keys| <= MAX_INNER_KEYS
  {
    Int64KeysSize(n.keys);
  }

  lemma {:induction false} ValuesSizeConcat(a: seq<seq<Tid>>, b: seq<seq<Tid>>)
    ensures ValuesSize(a + b) == ValuesSize(a) + ValuesSize(b)
  {
    if b == [] {
      assert a + b == a;
    } else {
      var m := b[..|b| - 1];
      assert (a + b)[..|a + b| - 1] == a + m;
      ValuesSizeConcat(a, m);
    }
  }

  /** Replacing one value. */
  lemma ValuesSizeUpdate(a: seq<seq<Tid>>, i: nat, v: seq<Tid>)
    requires i < |a|
    ensures ValuesSize(a[i := v]) + |a[i]| * TID_SIZE == ValuesSize(a) + |v| * TID_SIZE
    ensures ValuesSize(a) >= 4 + |a[i]| * TID_SIZE
  {
    assert a == a[..i] + [a[i]] + a[i + 1..];
    assert a[i := v] == a[..i] + [v] + a[i + 1..];
    ValuesSizeConcat(a[..i] + [a[i]], a[i + 1..]);
    ValuesSizeConcat(a[..i] + [v], a[i + 1..]);
    ValuesSizeConcat(a[..i], [a[i]]);
    ValuesSizeConcat(a[..i], [v]);
    assert [a[i]][..0] == [] && [v][..0] == [];
  }

  lemma {:induction false} ValuesSizeAtLeast(a: seq<seq<Tid>>)
    requires forall i :: 0 <= i < |a| ==> |a[i]| >= 1
    ensures ValuesSize(a) >= 10 * |a|
  {
    if a != [] {
      ValuesSizeAtLeast(a[..|a| - 1]);
    }
  }

  lemma {:induction false} KeysSizeConcat(a: seq<Value>, b: seq<Value>)
    ensures KeysSize(a + b) == KeysSize(a) + KeysSize(b)
  {
    if b == [] {
      assert a + b == a;
    } else {
      var n := |b| - 1;
      KeysSizeConcat(a, b[..n]);
      assert (a + b)[..|a + b| - 1] == a + b[..n];
    }
  }

  /** What one more entry adds to the size of a leaf. */
  function Growth(leaf: Node, key: Value): nat {
    if key in leaf.keys then TID_SIZE else KeySize(key) + 4 + TID_SIZE
  }

  lemma EntryGrowth(m: Node, n: Node, i: nat, key: Value, tid: Tid)
    requires EntryAdded(m, n, i, key, tid) && m.isLeaf
    ensures NodeSize(n) == NodeSize(m) + Growth(m, key)
  {
    if i < |m.keys| && m.keys[i] == key {
      ValuesSizeUpdate(m.values, i, m.values[i] + [tid]);
    } else {
      assert m.keys == m.keys[..i] + m.keys[i..] && m.values == m.values[..i] + m.values[i..];
      KeysSizeConcat(m.keys[..i], m.keys[i..]);
      KeysSizeConcat(m.keys[..i] + [key], m.keys[i..]);
      KeysSizeConcat(m.keys[..i], [key]);
      ValuesSizeConcat(m.values[..i], m.values[i..]);
      ValuesSizeConcat(m.values[..i] + [[tid]], m.values[i..]);
      ValuesSizeConcat(m.values[..i], [[tid]]);
      assert [key][..0] == [] && [[tid]][..0] == [];
    }
  }

  lemma EntryAddedSize(m: Node, n: Node, i: nat, key: Value, tid: Tid)
    requires EntryAdded(m, n, i, key, tid) && m.isLeaf && Typed(m.keys, INT64) && key.HasType(INT64)
    ensures n.isLeaf && |n.values| == |n.keys| && Typed(n.keys, INT64)
    ensures if |n.keys| == |m.keys| then NodeSize(n) == NodeSize(m) + 6 else |n.keys| == |m.keys| + 1 && NodeSize(n) == NodeSize(m) + 18
  {
    Int64KeysSize(m.keys);
    if i < |m.keys| && m.keys[i] == key {
      ValuesSizeUpdate(m.values, i, m.values[i] + [tid]);
    } else {
      InsertedKeys(m.keys, i, key);
      Int64KeysSize(n.keys);
      assert m.values == m.values[..i] + m.values[i..];
      ValuesSizeConcat(m.values[..i], m.values[i..]);
      ValuesSizeConcat(m.values[..i] + [[tid]], m.values[i..]);
      ValuesSizeConcat(m.values[..i], [[tid]]);
      assert [[tid]][..0] == [];
    }
  }

  /** A leaf entry has at least one TID; at most `MAX_TIDS` fit. */
  ghost predicate Counted(n: Node) {
    forall i :: 0 <= i < |n.values| ==> 1 <= |n.values[i]| <= MAX_TIDS
  }

  lemma HalfSizes(n: Node, mid: nat)
    requires n.isLeaf && |n.values| == |n.keys| && mid <= |n.keys| && Typed(n.keys, INT64)
    requires forall i :: 0 <= i < |n.values| ==> |n.values[i]| >= 1
    ensures NodeSize(n.(keys := n.keys[..mid], values := n.values[..mid])) <= NodeSize(n) - 18 * (|n.keys| - mid)
    ensures NodeSize(n.(keys := n.keys[mid..], values := n.values[mid..])) <= NodeSize(n) - 18 * mid
  {
    assert n.values == n.values[..mid] + n.values[mid..];
    ValuesSizeConcat(n.values[..mid], n.values[mid..]);
    ValuesSizeAtLeast(n.values[..mid]);
    ValuesSizeAtLeast(n.values[mid..]);
    Int64KeysSize(n.keys);
    Int64KeysSize(n.keys[..mid]);
    Int64KeysSize(n.keys[mid..]);
  }

  lemma SingleFits(n: Node)
    requires n.isLeaf && |n.values| == |n.keys| == 1 && Typed(n.keys, INT64) && Counted(n)
    ensures PageFits(n)
  {
    SingleKeyLeaf(n);
  }

  /** A leaf that just took one entry splits into two leaves that fit. */
  lemma HalvesOfOverfullFit(m: Node, n: Node, i: nat, key: Value, tid: Tid)
    requires EntryAdded(m, n, i, key, tid) && m.isLeaf && Typed(m.keys, INT64) && key.HasType(INT64)
    requires PageFits(m) && Counted(n) && |n.keys| >= 1
    ensures HalvesFit(n)
  {
    EntryAddedSize(m, n, i, key, tid);
    var mid := |n.keys| / 2;
    var low := n.(keys := n.keys[..mid], values := n.values[..mid]);
    var up := n.(keys := n.keys[mid..], values := n.values[mid..]);
    HalfSizes(n, mid);
    if |n.keys| == 1 {
      assert up.keys == n.keys && up.values == n.values;
      SingleFits(up);
      assert low.keys == [] && low.values == [];
    } else if NodeSize(m) > PAGE_CAPACITY {
      SingleFits(low);
      SingleFits(up);
    }
  }

  // ----- The four page updates -----

  /** With at most 1356 TIDs per key an overfull leaf has two keys or more, and both halves of its
      split stay within the capacity the source checks against. */
  lemma HalvesWithinCapacity(m: Node, n: Node, i: nat, key: Value, tid: Tid)
    requires EntryAdded(m, n, i, key, tid) && m.isLeaf && Typed(m.keys, INT64) && key.HasType(INT64)
    requires PageFits(m) && |n.keys| >= 1 && forall j :: 0 <= j < |n.values| ==> 1 <= |n.values[j]| <= 1356
    ensures var mid := |n.keys| / 2;
      && |n.values| == |n.keys|
      && (NodeSize(n) > PAGE_CAPACITY ==> |n.keys| >= 2)
      && NodeSize(n.(keys := n.keys[..mid], values := n.values[..mid])) <= PAGE_CAPACITY
      && NodeSize(n.(keys := n.keys[mid..], values := n.values[mid..])) <= PAGE_CAPACITY
  {
    hide NodeSize, EntryAdded;
    EntryAddedShape(m, n, i, key, tid);
    HalvesOfOverfullFit(m, n, i, key, tid);
    var mid := |n.keys| / 2;
    var low := n.(keys := n.keys[..mid], values := n.values[..mid]);
    var up := n.(keys := n.keys[mid..], values := n.values[mid..]);
    SingleWithinCapacity(n);
    SingleWithinCapacity(low);
    SingleWithinCapacity(up);
  }

  lemma EntryAddedShape(m: Node, n: Node, i: nat, key: Value, tid: Tid)
    requires EntryAdded(m, n, i, key, tid) && m.isLeaf && Typed(m.keys, INT64) && key.HasType(INT64)
    ensures n.isLeaf && |n.values| == |n.keys| && Typed(n.keys, INT64)
  {
  }

  lemma SingleWithinCapacity(n: Node)
    requires n.isLeaf && |n.values| == |n.keys| && Typed(n.keys, INT64)
    requires forall j :: 0 <= j < |n.values| ==> |n.values[j]| <= 1356
    ensures |n.keys| == 1 ==> NodeSize(n) <= PAGE_CAPACITY
    ensures n.keys == [] ==> NodeSize(n) <= PAGE_CAPACITY
  {
    if |n.keys| == 1 {
      SingleKeyLeaf(n);
    }
  }

  lemma LeafSplitInt64(t: Tree, t': Tree, n: Node, mid: nat, j: nat, low: Node, up: Node)
    requires Domain(t) && Chain(t) && LeafSplit(t, t', n, mid, j, low, up) && n.isLeaf && mid == |n.keys| / 2
    requires Int64Pages(t, n.pageID) && HalvesFit(n)
    ensures Int64Pages(t', NO_PAGE)
  {
    assert PageFits(low);
    assert PageFits(up) by {
      var half := n.(keys := n.keys[mid..], values := n.values[mid..]);
      assert NodeSize(half) == NodeSize(up);
    }
    forall p | p in t'.info
      ensures p in t'.nodes && PageFits(t'.nodes[p])
        && (t'.info[p].level > 0 ==> |t'.nodes[p].keys| >= if p == t'.root then 1 else MIN_INNER_KEYS)
    {
      if p != n.pageID && p != t.next {
        assert NodeSize(t'.nodes[p]) == NodeSize(t.nodes[p]);
      }
    }
  }

  lemma AttachInt64(t: Tree, t': Tree, q: Pending, key: Value, n: Node, n': Node)
    requires Domain(t) && NodesOk(t) && ParentsOk(t, q) && ChildrenOk(t, q) && PendingOk(t, q) && q.Pending? && q.left != t.root
    requires Attached(t, t', q, key, n, n') && t.keyType == INT64 && Int64Pages(t, NO_PAGE)
    ensures Int64Pages(t', n.pageID)
    ensures |n'.keys| <= MAX_INNER_KEYS + 1 && NodeSize(n') == 38 + 12 * |n'.keys|
  {
    AttachNode(t, t', q, key, n, n');
    AttachPlace(t, t', q, key, n, n');
    AttachFacts(t, t', q, key, n, n');
    Int64InnerFits(n);
    Int64InnerFits(n');
    forall p | p in t'.info
      ensures p in t'.nodes && (p != n.pageID ==> PageFits(t'.nodes[p]))
        && (t'.info[p].level > 0 ==> |t'.nodes[p].keys| >= if p == t'.root then 1 else MIN_INNER_KEYS)
    {
      if p != n.pageID {
        assert NodeSize(t'.nodes[p]) == NodeSize(t.nodes[p]);
      }
    }
  }

  lemma InnerHalvesShape(t: Tree, t': Tree, n: Node, mid: nat, low: Node, up: Node)
    requires Domain(t) && NodesOk(t) && InnerSplit(t, t', n, mid, low, up) && t.keyType == INT64
    ensures !n.isLeaf && Typed(n.keys, INT64) && |n.children| == |n.keys| + 1
    ensures !low.isLeaf && Typed(low.keys, INT64) && |low.children| == |low.keys| + 1 && |low.keys| == mid
    ensures !up.isLeaf && Typed(up.keys, INT64) && |up.children| == |up.keys| + 1 && |up.keys| == |n.keys| - mid - 1
  {
    hide InnerSplitInfo, Rank;
    assert NodeOk(t, n.pageID);
    forall i | 0 <= i < |low.keys| ensures low.keys[i].HasType(INT64) { assert low.keys[i] == n.keys[i]; }
    forall i | 0 <= i < |up.keys| ensures up.keys[i].HasType(INT64) { assert up.keys[i] == n.keys[mid + 1 + i]; }
  }

  lemma InnerSplitInt64(t: Tree, t': Tree, n: Node, mid: nat, low: Node, up: Node)
    requires Domain(t) && NodesOk(t) && InnerSplit(t, t', n, mid, low, up) && t.keyType == INT64
    requires Int64Pages(t, n.pageID) && mid == |n.keys| / 2
    requires NodeSize(n) > PAGE_CAPACITY && |n.keys| <= MAX_INNER_KEYS + 1
    ensures Int64Pages(t', NO_PAGE) && |low.keys| >= MIN_INNER_KEYS
  {
    InnerHalvesShape(t, t', n, mid, low, up);
    Int64InnerFits(n);
    Int64InnerFits(low);
    Int64InnerFits(up);
    forall p | p in t'.info
      ensures p in t'.nodes && PageFits(t'.nodes[p])
        && (t'.info[p].level > 0 ==> |t'.nodes[p].keys| >= if p == t'.root then 1 else MIN_INNER_KEYS)
    {
      if p != n.pageID && p != t.next {
        assert NodeSize(t'.nodes[p]) == NodeSize(t.nodes[p]);
      }
    }
  }

  lemma RootedInt64(t: Tree, t': Tree, q: Pending, key: Value)
    requires Domain(t) && NodesOk(t) && PendingOk(t, q) && Rooted(t, t', q, key) && t.keyType == INT64
    requires Int64Pages(t, NO_PAGE)
    requires t.info[q.left].level > 0 ==> |t.nodes[q.left].keys| >= MIN_INNER_KEYS
    ensures Int64Pages(t', NO_PAGE)
  {
    Int64InnerFits(t'.nodes[t.next]);
    forall p | p in t'.info
      ensures p in t'.nodes && PageFits(t'.nodes[p])
        && (t'.info[p].level > 0 ==> |t'.nodes[p].keys| >= if p == t'.root then 1 else MIN_INNER_KEYS)
    {
      if p != t.next {
        assert NodeSize(t'.nodes[p]) == NodeSize(t.nodes[p]);
      }
    }
  }

  // ----- What a whole insert may rely on -----

  lemma FitsIsCounted(n: Node, i: nat)
    requires n.isLeaf && |n.values| == |n.keys| && Typed(n.keys, INT64) && i < |n.values|
    ensures PageFits(n) ==> |n.values[i]| <= MAX_TIDS
  {
    Int64KeysSize(n.keys);
    ValuesSizeUpdate(n.values, i, []);
  }

  lemma HalvesOfGrownFit(t: Tree, m: Node, n: Node, i: nat, key: Value, tid: Tid, log: seq<Entry>)
    requires WellFormed(t, NoPending) && t.keyType == INT64 && Int64Pages(t, NO_PAGE) && Files(t.contents, log, INT64)
    requires m.pageID in t.info && m.pageID in t.nodes && m == t.nodes[m.pageID] && t.info[m.pageID].level == 0
    requires key.HasType(INT64) && Covers(t.info[m.pageID], key) && EntryAdded(m, n, i, key, tid)
    requires |TidsOf(log, key)| + 1 <= MAX_TIDS && |n.keys| >= 1
    ensures HalvesFit(n)
  {
    hide HalvesFit, PageFits, NodeSize, KeysSize, ValuesSize, TidsOf, EntryAdded, Covers, Rank;
    assert NodeOk(t, m.pageID);
    forall z | 0 <= z < |m.values| ensures 1 <= |m.values[z]| <= MAX_TIDS && (m.keys[z] == key ==> |m.values[z]| + 1 <= MAX_TIDS) {
      FitsIsCounted(m, z);
      assert t.contents[m.keys[z]] == m.values[z];
    }
    CountedGains(m, n, i, key, tid);
    HalvesOfOverfullFit(m, n, i, key, tid);
  }

  lemma CountedGains(m: Node, n: Node, i: nat, key: Value, tid: Tid)
    requires EntryAdded(m, n, i, key, tid)
    requires forall z :: 0 <= z < |m.values| ==> 1 <= |m.values[z]| <= MAX_TIDS && (m.keys[z] == key ==> |m.values[z]| + 1 <= MAX_TIDS)
    ensures Counted(n)
  {
    forall k | 0 <= k < |n.values| ensures 1 <= |n.values[k]| <= MAX_TIDS {
      if i < |m.keys| && m.keys[i] == key {
        assert k != i ==> n.values[k] == m.values[k];
      } else {
        assert n.values[k] == if k < i then m.values[k] else if k == i then [tid] else m.values[k - 1];
      }
    }
  }

  /** A key with more than `MAX_TIDS` TIDs overflows the page of its leaf. */
  lemma TooManyTids(t: Tree, key: Value)
    requires WellFormed(t, NoPending) && t.keyType == INT64 && key in t.contents && |t.contents[key]| > MAX_TIDS
    ensures exists p :: p in t.info && p in t.nodes && NodeSize(t.nodes[p]) > PAGE_SIZE
  {
    var p := LeafFor(t, key);
    var n := t.nodes[p];
    assert NodeOk(t, p);
    var i :| 0 <= i < |n.keys| && n.keys[i] == key;
    FitsIsCounted(n, i);
    Int64KeysSize(n.keys);
    ValuesSizeUpdate(n.values, i, []);
  }

  lemma TooManyTidsLogged(t: Tree, key: Value, log: seq<Entry>)
    requires WellFormed(t, NoPending) && t.keyType == INT64 && Files(t.contents, log, INT64) && |TidsOf(log, key)| > MAX_TIDS
    ensures exists p :: p in t.info && p in t.nodes && NodeSize(t.nodes[p]) > PAGE_SIZE
  {
    TooManyTids(t, key);
  }

  /** Whether an insert splits, read off the size of the leaf. */
  lemma SplitsWhenFull(t: Tree, key: Value)
    requires WellFormed(t, NoPending) && key.HasType(t.keyType)
    ensures InsertSplits(t, key) <==> NodeSize(t.nodes[LeafFor(t, key)]) + Growth(t.nodes[LeafFor(t, key)], key) > PAGE_CAPACITY
  {
    var m := t.nodes[LeafFor(t, key)];
    assert NodeOk(t, LeafFor(t, key));
    WithEntryAdds(m, key, SOME_TID, t.keyType);
    EntryGrowth(m, GrownLeaf(t, key), LowerPlace(m.keys, key), key, SOME_TID);
  }

  // ----- What the pages above may rely on -----

  lemma InnerSizeInt64(keys: seq<Value>)
    requires Typed(keys, INT64)
    ensures InnerSize(keys) == 38 + 12 * |keys|
  {
    Int64KeysSize(keys);
  }

  lemma SeparatorTyped(keys: seq<Value>, key: Value)
    requires Typed(keys, INT64) && key.Int64?
    ensures Typed(WithSeparator(keys, key), INT64)
  {
    InsertedKeys(keys, UpperPlace(keys, key), key);
  }

  ghost predicate Int64Above(up: seq<Above>) {
    forall i :: 0 <= i < |up| ==> Typed(up[i].keys, INT64) && |up[i].keys| <= MAX_INNER_KEYS
  }

  lemma {:induction false} Int64CascadeFits(up: seq<Above>, key: Value)
    requires Int64Above(up) && key.Int64?
    ensures CascadeFits(up, key)
  {
    if up == [] {
      InnerSizeInt64([key]);
    } else {
      var keys := WithSeparator(up[0].keys, key);
      SeparatorTyped(up[0].keys, key);
      InnerSizeInt64(keys);
      InnerSizeInt64(keys[..|keys| / 2]);
      InnerSizeInt64(keys[|keys| / 2 + 1..]);
      Int64CascadeFits(up[1..], Middle(keys));
    }
  }

  lemma {:induction false} AncestorsInt64(t: Tree, p: int)
    requires WellFormed(t, NoPending) && t.keyType == INT64 && Int64Pages(t, NO_PAGE) && p in t.info
    ensures Int64Above(Ancestors(t, p))
    decreases t.height - t.info[p].level
  {
    if Climbs(t, p) {
      var r := t.nodes[p].parentPageID;
      assert NodeOk(t, r);
      Int64InnerFits(t.nodes[r]);
      AncestorsInt64(t, r);
    }
  }

  /** In an INT64 tree the pages above never stop an insert: it goes through if both halves of the leaf fit. */
  lemma Int64InsertFits(t: Tree, key: Value)
    requires WellFormed(t, NoPending) && t.keyType == INT64 && Int64Pages(t, NO_PAGE) && key.Int64?
    ensures InsertFits(t, key) <==> InsertSplits(t, key) ==> SplitFits(GrownLeaf(t, key))
  {
    hide CascadeFits, SplitFits, NodeSize, Int64Pages, Ancestors;
    GrownLeafKeys(t, key);
    AncestorsInt64(t, LeafFor(t, key));
    Int64CascadeFits(Ancestors(t, LeafFor(t, key)), Middle(GrownLeaf(t, key).keys));
  }
}
