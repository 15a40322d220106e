/** What a B+tree insert will do to the pages above its leaf, read off the tree before the insert:
    whether every page it writes fits, whether the tree grows, and with which root key. */
module BTreeCascade {
  import opened Values
  import opened Pages
  import opened BTreeShape
  import opened BTreePages
  import opened BTreeSteps

  // ----- The leaf in charge of a key -----

  lemma {:induction false} CoverFrom(t: Tree, k: Value, j: nat)
    requires Chain(t) && j < |t.leaves| && t.leaves[j] in t.info && AtOrAbove(t.info[t.leaves[j]].lo, Rank(k))
    ensures exists p :: p in t.info && p in t.nodes && t.info[p].level == 0 && Covers(t.info[p], k)
    decreases |t.leaves| - j
  {
    assert LinkOk(t, j);
    if !Below(t.info[t.leaves[j]].hi, Rank(k)) {
      assert LinkOk(t, j + 1);
      CoverFrom(t, k, j + 1);
    }
  }

  lemma CoverExists(t: Tree, k: Value)
    requires Chain(t)
    ensures exists p :: p in t.info && p in t.nodes && t.info[p].level == 0 && Covers(t.info[p], k)
  {
    assert LinkOk(t, 0);
    CoverFrom(t, k, 0);
  }

  /** The leaf in charge of `key`: there is one, and no other. */
  ghost function LeafFor(t: Tree, key: Value): (p: int)
    requires Chain(t)
    ensures p in t.info && p in t.nodes && t.info[p].level == 0 && Covers(t.info[p], key)
    ensures forall x :: x in t.info && t.info[x].level == 0 && Covers(t.info[x], key) ==> x == p
  {
    CoverExists(t, key);
    var p :| p in t.info && p in t.nodes && t.info[p].level == 0 && Covers(t.info[p], key);
    assert forall x :: x in t.info && t.info[x].level == 0 && Covers(t.info[x], key) ==> x == p by {
      forall x | x in t.info && t.info[x].level == 0 && Covers(t.info[x], key) ensures x == p {
        LeavesAreDisjoint(t, x, p, key);
      }
    }
    p
  }

  /** How many leading keys lie below `key`: the answer of a lower-bound search. */
  ghost function LowerPlace(keys: seq<Value>, key: Value): (i: nat)
    ensures i <= |keys|
  {
    if keys == [] || Rank(keys[0]) >= Rank(key) then 0 else 1 + LowerPlace(keys[1..], key)
  }

  lemma {:induction false} LowerPlaceIs(keys: seq<Value>, key: Value, i: nat)
    requires i <= |keys|
    requires forall k :: 0 <= k < i ==> Rank(keys[k]) < Rank(key)
    requires forall k :: i <= k < |keys| ==> Rank(keys[k]) >= Rank(key)
    ensures LowerPlace(keys, key) == i
  {
    if i > 0 {
      LowerPlaceIs(keys[1..], key, i - 1);
    }
  }

  lemma {:induction false} LowerPlaceSplits(keys: seq<Value>, key: Value)
    requires Nondecreasing(keys)
    ensures forall k :: 0 <= k < LowerPlace(keys, key) ==> Rank(keys[k]) < Rank(key)
    ensures forall k :: LowerPlace(keys, key) <= k < |keys| ==> Rank(keys[k]) >= Rank(key)
  {
    if keys != [] && Rank(keys[0]) < Rank(key) {
      LowerPlaceSplits(keys[1..], key);
      assert forall k :: 1 <= k < |keys| ==> keys[k] == keys[1..][k - 1];
    }
  }

  /** Leaf `m` with one more entry. */
  ghost function WithEntry(m: Node, key: Value, tid: Tid): Node
    requires |m.values| == |m.keys|
  {
    var i := LowerPlace(m.keys, key);
    if i < |m.keys| && m.keys[i] == key then m.(values := m.values[i := m.values[i] + [tid]])
    else m.(keys := InsertKey(m.keys, i, key), values := m.values[..i] + [[tid]] + m.values[i..])
  }

  lemma WithEntryHasKey(m: Node, key: Value, tid: Tid)
    requires |m.values| == |m.keys|
    ensures var n := WithEntry(m, key, tid); key in n.keys && |n.keys| >= 1 && |n.values| == |n.keys| && n.isLeaf == m.isLeaf
  {
    var i := LowerPlace(m.keys, key);
    InsertedKeys(m.keys, i, key);
    assert WithEntry(m, key, tid).keys[i] == key;
  }

  lemma WithEntryAdds(m: Node, key: Value, tid: Tid, t: Type)
    requires |m.values| == |m.keys| && Increasing(m.keys) && Typed(m.keys, t) && key.HasType(t)
    ensures EntryAdded(m, WithEntry(m, key, tid), LowerPlace(m.keys, key), key, tid)
    ensures Increasing(WithEntry(m, key, tid).keys)
  {
    hide Rank, InsertKey, LowerPlace;
    var i := LowerPlace(m.keys, key);
    LowerPlaceSplits(m.keys, key);
    if i < |m.keys| {
      RankOrders(m.keys[i], key);
    }
    if !(i < |m.keys| && m.keys[i] == key) {
      InsertKeepsOrder(m.keys, i, key);
    }
  }

  // ----- The size of a leaf and of its halves does not depend on which TIDs it holds -----

  ghost predicate SameShape(a: Node, b: Node) {
    && a.isLeaf == b.isLeaf && a.keys == b.keys && |a.children| == |b.children| && |a.values| == |b.values|
    && forall i :: 0 <= i < |a.values| ==> |a.values[i]| == |b.values[i]|
  }

  lemma {:induction false} SameValuesSize(a: seq<seq<Tid>>, b: seq<seq<Tid>>)
    requires |a| == |b| && forall i :: 0 <= i < |a| ==> |a[i]| == |b[i]|
    ensures ValuesSize(a) == ValuesSize(b)
  {
    if a != [] {
      SameValuesSize(a[..|a| - 1], b[..|b| - 1]);
    }
  }

  ghost function LowerHalf(n: Node): Node
    requires |n.values| == |n.keys|
  {
    n.(keys := n.keys[..|n.keys| / 2], values := n.values[..|n.keys| / 2])
  }

  ghost function UpperHalf(n: Node): Node
    requires |n.values| == |n.keys|
  {
    n.(keys := n.keys[|n.keys| / 2..], values := n.values[|n.keys| / 2..])
  }

  /** Both pages that the split of leaf `n` writes can hold their half. */
  ghost predicate SplitFits(n: Node)
    requires |n.values| == |n.keys|
  {
    NodeSize(LowerHalf(n)) <= PAGE_SIZE && NodeSize(UpperHalf(n)) <= PAGE_SIZE
  }

  lemma SameSizes(a: Node, b: Node)
    requires SameShape(a, b) && |a.values| == |a.keys|
    ensures a.keys == b.keys && NodeSize(a) == NodeSize(b) && |b.values| == |b.keys| && (SplitFits(a) <==> SplitFits(b))
  {
    var mid := |a.keys| / 2;
    SameValuesSize(a.values, b.values);
    SameValuesSize(a.values[..mid], b.values[..mid]);
    SameValuesSize(a.values[mid..], b.values[mid..]);
  }

  lemma AnyTid(m: Node, key: Value, a: Tid, b: Tid)
    requires |m.values| == |m.keys|
    ensures SameShape(WithEntry(m, key, a), WithEntry(m, key, b))
  {
    var i := LowerPlace(m.keys, key);
    var x, y := m.values[..i] + [[a]] + m.values[i..], m.values[..i] + [[b]] + m.values[i..];
    assert forall k :: 0 <= k < |x| ==> |x[k]| == |y[k]|;
  }

  // ----- The pages above -----

  /** What a split reported to a page depends on: the keys of the page and the end of its interval. */
  datatype Above = Above(keys: seq<Value>, hi: Option<real>)

  ghost predicate Climbs(t: Tree, p: int) {
    && p in t.info && p in t.nodes && p != t.root
    && var r := t.nodes[p].parentPageID;
    r in t.info && r in t.nodes && t.info[p].level < t.info[r].level < t.height
  }

  /** The pages above `p`, from its parent to the root. */
  ghost function Ancestors(t: Tree, p: int): seq<Above>
    decreases if p in t.info then t.height - t.info[p].level else 0
  {
    if !Climbs(t, p) then []
    else var r := t.nodes[p].parentPageID; [Above(t.nodes[r].keys, t.info[r].hi)] + Ancestors(t, r)
  }

  /** How many leading keys are at most `key`: the answer of an upper-bound search. */
  ghost function UpperPlace(keys: seq<Value>, key: Value): (i: nat)
    ensures i <= |keys|
  {
    if keys == [] || Rank(keys[0]) > Rank(key) then 0 else 1 + UpperPlace(keys[1..], key)
  }

  lemma {:induction false} UpperPlaceIs(keys: seq<Value>, key: Value, i: nat)
    requires i <= |keys|
    requires forall k :: 0 <= k < i ==> Rank(keys[k]) <= Rank(key)
    requires forall k :: i <= k < |keys| ==> Rank(keys[k]) > Rank(key)
    ensures UpperPlace(keys, key) == i
  {
    if i > 0 {
      UpperPlaceIs(keys[1..], key, i - 1);
    }
  }

  /** The keys of an internal page that took a new separator. */
  ghost function WithSeparator(keys: seq<Value>, key: Value): (r: seq<Value>)
    ensures |r| == |keys| + 1
  {
    InsertKey(keys, UpperPlace(keys, key), key)
  }

  /** The separator that an internal page with too many keys passes on. */
  ghost function Middle(keys: seq<Value>): Value
    requires keys != []
  {
    keys[|keys| / 2]
  }

  /** Every page written on the way up can hold what is written to it. */
  ghost predicate CascadeFits(up: seq<Above>, key: Value) {
    if up == [] then InnerSize([key]) <= PAGE_SIZE
    else
      var keys := WithSeparator(up[0].keys, key);
      InnerSize(keys) <= PAGE_CAPACITY
      || (InnerSize(keys[..|keys| / 2]) <= PAGE_SIZE && InnerSize(keys[|keys| / 2 + 1..]) <= PAGE_SIZE
          && CascadeFits(up[1..], Middle(keys)))
  }

  /** The right page of every internal split has keys to be responsible for: the separator passed on lies
      below the end of the interval. Where it equals the separator behind the split page, an upper-bound
      search goes past that one (`PassesNext`). */
  ghost predicate CascadeSeparates(up: seq<Above>, key: Value) {
    up == [] ||
      var keys := WithSeparator(up[0].keys, key);
      InnerSize(keys) <= PAGE_CAPACITY
      || (Below(up[0].hi, Rank(Middle(keys))) && CascadeSeparates(up[1..], Middle(keys)))
  }

  /** The root is split too. */
  ghost predicate CascadeGrows(up: seq<Above>, key: Value) {
    up == [] ||
      var keys := WithSeparator(up[0].keys, key);
      InnerSize(keys) > PAGE_CAPACITY && CascadeGrows(up[1..], Middle(keys))
  }

  /** The key of the new root when the tree grows. */
  ghost function CascadeRootKey(up: seq<Above>, key: Value): Value {
    if up == [] then key else CascadeRootKey(up[1..], Middle(WithSeparator(up[0].keys, key)))
  }

  /** A separator equal to the one behind the `i`-th child is placed behind child `i + 1` or later. */
  lemma {:induction false} PassesNext(keys: seq<Value>, i: nat, key: Value)
    requires Nondecreasing(keys) && i < |keys| && Rank(keys[i]) == Rank(key)
    ensures UpperPlace(keys, key) > i
  {
    if i > 0 {
      PassesNext(keys[1..], i - 1, key);
    }
  }

  // ----- What an insert will do -----

  const SOME_TID: Tid := Tid(0, 0)

  /** The leaf in charge of `key` once the entry is added. */
  ghost function GrownLeaf(t: Tree, key: Value): (n: Node)
    requires Chain(t) && NodesOk(t)
    ensures |n.values| == |n.keys| && |n.keys| >= 1
  {
    assert NodeOk(t, LeafFor(t, key));
    WithEntryHasKey(t.nodes[LeafFor(t, key)], key, SOME_TID);
    WithEntry(t.nodes[LeafFor(t, key)], key, SOME_TID)
  }

  lemma GrownLeafKeys(t: Tree, key: Value)
    requires Chain(t) && NodesOk(t) && key.HasType(t.keyType)
    ensures Typed(GrownLeaf(t, key).keys, t.keyType) && GrownLeaf(t, key).isLeaf
    ensures forall i :: 0 <= i < |GrownLeaf(t, key).keys| ==> Covers(t.info[LeafFor(t, key)], GrownLeaf(t, key).keys[i])
  {
    var m := t.nodes[LeafFor(t, key)];
    assert NodeOk(t, LeafFor(t, key));
    InsertedKeys(m.keys, LowerPlace(m.keys, key), key);
  }

  ghost predicate InsertSplits(t: Tree, key: Value)
    requires Chain(t) && NodesOk(t)
  {
    NodeSize(GrownLeaf(t, key)) > PAGE_CAPACITY
  }

  /** Every page the insert writes is within a disk page; otherwise writing it panics. */
  ghost predicate InsertFits(t: Tree, key: Value)
    requires Chain(t) && NodesOk(t)
  {
    InsertSplits(t, key) ==>
      SplitFits(GrownLeaf(t, key)) && CascadeFits(Ancestors(t, LeafFor(t, key)), Middle(GrownLeaf(t, key).keys))
  }

  ghost predicate InsertSeparates(t: Tree, key: Value)
    requires Chain(t) && NodesOk(t)
  {
    InsertSplits(t, key) ==> CascadeSeparates(Ancestors(t, LeafFor(t, key)), Middle(GrownLeaf(t, key).keys))
  }

  ghost predicate InsertGrows(t: Tree, key: Value)
    requires Chain(t) && NodesOk(t)
  {
    InsertSplits(t, key) && CascadeGrows(Ancestors(t, LeafFor(t, key)), Middle(GrownLeaf(t, key).keys))
  }

  // ----- The pages above stay the same while a split travels up to them -----

  /** `t'` has the same pages above `p`. */
  ghost predicate SameAbove(t: Tree, t': Tree, p: int)
    requires p in t.info
  {
    && t'.root == t.root && t'.height == t.height
    && forall x :: x in t.info && t.info[x].level >= t.info[p].level ==>
         && x in t'.info && x in t.nodes && x in t'.nodes && t'.info[x].level == t.info[x].level
         && t'.nodes[x].parentPageID == t.nodes[x].parentPageID
         && (t.info[x].level > t.info[p].level ==> t'.nodes[x].keys == t.nodes[x].keys && t'.info[x].hi == t.info[x].hi)
  }

  lemma {:induction false} AncestorsKept(t: Tree, t': Tree, q: Pending, p: int)
    requires ParentsOk(t, q) && p in t.info && !(q.Pending? && p == q.right) && SameAbove(t, t', p)
    requires q.Pending? && q.right in t.info ==> t.info[q.right].level <= t.info[p].level
    ensures Ancestors(t', p) == Ancestors(t, p)
    decreases t.height - t.info[p].level
  {
    if p != t.root {
      assert ParentOk(t, p);
      if Climbs(t, p) {
        AncestorsKept(t, t', q, t.nodes[p].parentPageID);
      }
    }
  }

  /** One step up. */
  lemma AncestorsUnfold(t: Tree, q: Pending, p: int)
    requires ParentsOk(t, q) && RootOk(t, q) && p in t.info && !(q.Pending? && p == q.right)
    ensures p == t.root ==> Ancestors(t, p) == []
    ensures p != t.root ==> p in t.nodes && var r := t.nodes[p].parentPageID;
      r in t.info && r in t.nodes && Ancestors(t, p) == [Above(t.nodes[r].keys, t.info[r].hi)] + Ancestors(t, r)
  {
    if p != t.root {
      assert ParentOk(t, p);
    }
  }

  lemma LeafReplacedAncestors(t: Tree, t': Tree, n: Node)
    requires WellFormed(t, NoPending) && n.pageID in t.info && n.pageID in t.nodes && t.info[n.pageID].level == 0
    requires t' == t.(nodes := t.nodes[n.pageID := n], contents := t'.contents) && n.parentPageID == t.nodes[n.pageID].parentPageID
    ensures Ancestors(t', n.pageID) == Ancestors(t, n.pageID)
  {
    AncestorsKept(t, t', NoPending, n.pageID);
  }

  lemma LeafSplitSameAbove(t: Tree, t': Tree, n: Node, mid: nat, j: nat, low: Node, up: Node)
    requires Domain(t) && LeafSplit(t, t', n, mid, j, low, up)
    ensures SameAbove(t, t', n.pageID)
  {
  }

  lemma LeafSplitAncestors(t: Tree, t': Tree, n: Node, mid: nat, j: nat, low: Node, up: Node)
    requires WellFormed(t, NoPending) && LeafSplit(t, t', n, mid, j, low, up)
    ensures Ancestors(t', n.pageID) == Ancestors(t, n.pageID)
  {
    LeafSplitSameAbove(t, t', n, mid, j, low, up);
    hide LeafSplit, SameAbove;
    AncestorsKept(t, t', NoPending, n.pageID);
  }

  lemma InnerSplitAncestors(t: Tree, t': Tree, n: Node, mid: nat, low: Node, up: Node)
    requires WellFormed(t, NoPending) && InnerSplit(t, t', n, mid, low, up)
    ensures Ancestors(t', n.pageID) == Ancestors(t, n.pageID)
  {
    forall x | x in t.info && t.info[x].level >= t.info[n.pageID].level && x != n.pageID ensures !Moves(t, n.pageID, mid, x) {
      assert x != t.root ==> ParentOk(t, x);
    }
    AncestorsKept(t, t', NoPending, n.pageID);
  }

  lemma AttachSameAbove(t: Tree, t': Tree, q: Pending, key: Value, n: Node, n': Node)
    requires Domain(t) && ParentsOk(t, q) && ChildrenOk(t, q) && PendingOk(t, q) && RootOk(t, q) && q.Pending? && q.left != t.root
    requires Attached(t, t', q, key, n, n')
    ensures n.pageID in t.info && n.pageID != q.right && t.info[q.right].level <= t.info[n.pageID].level
    ensures SameAbove(t, t', n.pageID) && n.pageID in t'.info && t'.info[n.pageID].hi == t.info[n.pageID].hi
  {
    AttachFacts(t, t', q, key, n, n');
  }

  lemma AttachKeys(t: Tree, t': Tree, q: Pending, key: Value, n: Node, n': Node)
    requires WellFormed(t, q) && q.Pending? && q.left != t.root && Attached(t, t', q, key, n, n')
    ensures n'.keys == WithSeparator(n.keys, key) && NodeSize(n') == InnerSize(n'.keys)
  {
    hide WellFormed, InnerSize, NodeSize, KeysSize, ValuesSize, Rank;
    AttachShape(t, t', q, key, n, n');
    FitsAtUpperPlace(n.keys, t.info[q.left].pos, key);
    InnerNodeSize(n');
  }

  lemma AttachShape(t: Tree, t': Tree, q: Pending, key: Value, n: Node, n': Node)
    requires WellFormed(t, q) && q.Pending? && q.left != t.root && Attached(t, t', q, key, n, n')
    ensures Nondecreasing(n.keys) && FitsBetween(n.keys, t.info[q.left].pos, key)
    ensures !n'.isLeaf && |n'.children| == |n'.keys| + 1
  {
    AttachPlace(t, t', q, key, n, n');
  }

  lemma FitsAtUpperPlace(keys: seq<Value>, i: nat, key: Value)
    requires Nondecreasing(keys) && i <= |keys| && FitsBetween(keys, i, key)
    ensures UpperPlace(keys, key) == i
  {
    hide Rank;
    UpperPlaceIs(keys, key, i);
  }

  lemma InnerNodeSize(n: Node)
    requires !n.isLeaf && |n.children| == |n.keys| + 1
    ensures NodeSize(n) == InnerSize(n.keys)
  {
  }

  /** Reporting a split to the parent moves one step up the list of ancestors. */
  lemma AttachAncestors(t: Tree, t': Tree, q: Pending, key: Value, n: Node, n': Node)
    requires WellFormed(t, q) && q.Pending? && q.left != t.root && Attached(t, t', q, key, n, n')
    ensures n.pageID in t'.info && Ancestors(t, q.left) == [Above(n.keys, t'.info[n.pageID].hi)] + Ancestors(t', n.pageID)
  {
    AttachSameAbove(t, t', q, key, n, n');
    AncestorsUnfold(t, q, q.left);
    hide SameAbove;
    AncestorsKept(t, t', q, n.pageID);
  }

  /** An internal page of known size; new links to other pages do not change it. */
  lemma InnerHalfSizes(n: Node, mid: nat, low: Node, up: Node)
    requires !n.isLeaf && |n.children| == |n.keys| + 1 && mid < |n.keys|
    requires !low.isLeaf && low.keys == n.keys[..mid] && low.children == n.children[..mid + 1]
    requires !up.isLeaf && up.keys == n.keys[mid + 1..] && up.children == n.children[mid + 1..]
    ensures NodeSize(low) == InnerSize(n.keys[..mid]) && NodeSize(up) == InnerSize(n.keys[mid + 1..])
  {
  }

  /** New links to other pages do not change the size of a page. */
  lemma Relinked(nodes: map<int, Node>, p: int, n: Node)
    requires PagesFit(nodes) && p in nodes
    requires n == nodes[p].(parentPageID := n.parentPageID, leftSibPageID := n.leftSibPageID)
    ensures NodeSize(n) <= PAGE_SIZE
  {
    assert NodeSize(n) == NodeSize(nodes[p]);
  }

  lemma LeafHalfSizes(n: Node, low: Node, up: Node)
    requires n.isLeaf && |n.values| == |n.keys| && low.isLeaf && up.isLeaf
    requires var mid := |n.keys| / 2;
      low.keys == n.keys[..mid] && low.values == n.values[..mid] && up.keys == n.keys[mid..] && up.values == n.values[mid..]
    ensures SplitFits(n) <==> NodeSize(low) <= PAGE_SIZE && NodeSize(up) <= PAGE_SIZE
  {
    assert NodeSize(low) == NodeSize(LowerHalf(n)) && NodeSize(up) == NodeSize(UpperHalf(n));
  }

  lemma RootSize(n: Node, key: Value)
    requires !n.isLeaf && n.keys == [key] && |n.children| == 2
    ensures NodeSize(n) == InnerSize([key])
  {
  }

  lemma PendingAncestors(t: Tree, q: Pending)
    requires WellFormed(t, q) && q.Pending?
    ensures q.left == t.root ==> Ancestors(t, q.left) == []
  {
  }

  /** What `AddToLeaf` builds has the shape of `GrownLeaf`. */
  lemma GrownLeafIs(t: Tree, m: Node, n: Node, key: Value, tid: Tid)
    requires WellFormed(t, NoPending) && m.pageID in t.info && m.pageID in t.nodes && m == t.nodes[m.pageID] && t.info[m.pageID].level == 0
    requires key.HasType(t.keyType) && Covers(t.info[m.pageID], key) && |m.values| == |m.keys| && n == WithEntry(m, key, tid)
    ensures m.pageID == LeafFor(t, key) && n.pageID == m.pageID && n.parentPageID == m.parentPageID
    ensures SameShape(n, GrownLeaf(t, key)) && |n.values| == |n.keys| >= 1
    ensures Covers(t.info[m.pageID], n.keys[|n.keys| / 2])
  {
    AnyTid(m, key, tid, SOME_TID);
    GrownLeafKeys(t, key);
  }

  lemma TreeParts(t: Tree, q: Pending)
    requires WellFormed(t, q)
    ensures Chain(t) && NodesOk(t)
  {
  }

  // ----- What an insert leaves behind -----

  ghost predicate HoldsKeys(t: Tree, p: int, keys: seq<Value>) {
    p in t.info && p in t.nodes && t.info[p].level == 0 && t.nodes[p].keys == keys
  }

  ghost predicate OneMoreLeaf(a: seq<int>, b: seq<int>, p: int) {
    forall x :: x in b ==> x in a || x == p
  }

  /** The leaf in charge of `key` took it, and gave its upper half to the new page if it was split. */
  ghost predicate LeafTook(t: Tree, t': Tree, key: Value)
    requires Chain(t) && NodesOk(t)
  {
    var p, keys := LeafFor(t, key), GrownLeaf(t, key).keys;
    if InsertSplits(t, key) then
      && HoldsKeys(t', p, keys[..|keys| / 2]) && HoldsKeys(t', t.next, keys[|keys| / 2..])
      && OneMoreLeaf(t.leaves, t'.leaves, t.next)
    else
      && HoldsKeys(t', p, keys)
      && t'.info == t.info && t'.leaves == t.leaves && t'.nodes == t.nodes[p := t'.nodes[p]]
  }

  ghost predicate RootHolds(t: Tree, key: Value) {
    t.root in t.nodes && t.nodes[t.root].keys == [key]
  }

  lemma WholeLeafTook(t: Tree, t': Tree, n: Node, key: Value)
    requires Chain(t) && NodesOk(t) && n.pageID == LeafFor(t, key) && n.keys == GrownLeaf(t, key).keys && !InsertSplits(t, key)
    requires n.pageID in t'.info && t'.info[n.pageID].level == 0 && n.pageID in t'.nodes && t'.nodes == t.nodes[n.pageID := n]
    requires t'.leaves == t.leaves && t'.info == t.info
    ensures LeafTook(t, t', key)
  {
  }

  lemma SplitLeafTook(t: Tree, t': Tree, n: Node, key: Value)
    requires Chain(t) && NodesOk(t) && n.pageID == LeafFor(t, key) && n.keys == GrownLeaf(t, key).keys && InsertSplits(t, key)
    requires HoldsKeys(t', n.pageID, n.keys[..|n.keys| / 2]) && HoldsKeys(t', t.next, n.keys[|n.keys| / 2..])
    requires OneMoreLeaf(t.leaves, t'.leaves, t.next)
    ensures LeafTook(t, t', key)
  {
  }

  lemma LeafSplitHolds(t: Tree, t': Tree, n: Node, mid: nat, j: nat, low: Node, up: Node)
    requires LeafSplit(t, t', n, mid, j, low, up)
    ensures HoldsKeys(t', n.pageID, n.keys[..mid]) && HoldsKeys(t', t.next, n.keys[mid..])
    ensures OneMoreLeaf(t.leaves, t'.leaves, t.next)
  {
  }

  lemma KeysKept(a: Tree, b: Tree, p: int, keys: seq<Value>)
    requires Grown(a, b) && HoldsKeys(a, p, keys)
    ensures HoldsKeys(b, p, keys)
  {
  }

  lemma EmptyIsUntidy(t: Tree, p: int)
    requires HoldsKeys(t, p, []) && t.height >= 2
    ensures !Tidy(t)
  {
    assert p in t.info && p in t.nodes && !TidyNode(t, p);
  }
}
