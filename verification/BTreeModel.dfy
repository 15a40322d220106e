/** What the page graph is after an insert, as a function of the page graph before it, and after a run of
    inserts into an empty index. */
module BTreeModel {
  import opened Values
  import opened Pages
  import opened KeyCodec
  import opened IndexLog
  import opened BTreeShape
  import opened BTreePages
  import opened BTreeSteps
  import opened BTreeCascade
  import opened BTreeInt64

  /** One empty root leaf, on page 1. */
  ghost function EmptyTree(t: Type): Tree {
    Tree(t, map[1 := Node(1, true, NO_PAGE, NO_PAGE, NO_PAGE, [], [], [])], 1, 1, 1, 2, map[1 := Info(0, None, None, 0)], [1], map[])
  }

  /** The leaf in charge of the key has the entry, whatever its size. */
  ghost function AddedTree(t: Tree, key: Value, tid: Tid): Tree
    requires Chain(t) && NodesOk(t)
  {
    var p := LeafFor(t, key);
    assert NodeOk(t, p);
    t.(nodes := t.nodes[p := WithEntry(t.nodes[p], key, tid)],
       contents := t.contents[key := (if key in t.contents then t.contents[key] else []) + [tid]])
  }

  ghost function PlaceOf(leaves: seq<int>, p: int): (j: nat)
    requires p in leaves
    ensures j < |leaves| && leaves[j] == p
  {
    if leaves[0] == p then 0 else 1 + PlaceOf(leaves[1..], p)
  }

  ghost predicate CanDivideLeaf(t: Tree, p: int) {
    p in t.nodes && p in t.info && p in t.leaves && 1 <= |t.nodes[p].keys| == |t.nodes[p].values|
  }

  /** Leaf `p` keeps its lower half; a new leaf takes the rest and its place behind `p` in the chain. */
  ghost function LeafDivided(t: Tree, p: int): Tree
    requires CanDivideLeaf(t, p)
  {
    var n, mid, j := t.nodes[p], |t.nodes[p].keys| / 2, PlaceOf(t.leaves, p);
    var low := n.(keys := n.keys[..mid], values := n.values[..mid], rightSibPageID := t.next);
    var up := Node(t.next, true, n.parentPageID, p, n.rightSibPageID, n.keys[mid..], n.values[mid..], []);
    var s := t.nodes[p := low][t.next := up];
    t.(nodes := if n.rightSibPageID in t.nodes then s[n.rightSibPageID := t.nodes[n.rightSibPageID].(leftSibPageID := t.next)] else s,
       info := SplitInfo(t.info, p, t.next, Rank(Middle(n.keys))),
       leaves := t.leaves[..j + 1] + [t.next] + t.leaves[j + 1..],
       next := t.next + 1)
  }

  ghost predicate CanAttach(t: Tree, q: Pending, key: Value) {
    && q.Pending? && q.left in t.nodes && q.right in t.nodes && (forall x :: x in t.info ==> x in t.nodes)
    && var p := t.nodes[q.left].parentPageID;
    p in t.nodes && UpperPlace(t.nodes[p].keys, key) < |t.nodes[p].children|
  }

  /** The parent of `q.left` has the key at its upper-bound place and `q.right` behind it. */
  ghost function PageAttached(t: Tree, q: Pending, key: Value): Tree
    requires CanAttach(t, q, key)
  {
    var p := t.nodes[q.left].parentPageID;
    var n := t.nodes[p];
    var i := UpperPlace(n.keys, key);
    var n' := n.(keys := InsertKey(n.keys, i, key), children := n.children[..i + 1] + [q.right] + n.children[i + 1..]);
    t.(nodes := t.nodes[q.right := t.nodes[q.right].(parentPageID := p)][p := n'], info := AttachInfo(t, q, p, i))
  }

  ghost predicate CanDividePage(t: Tree, p: int) {
    && p in t.nodes && p in t.info && (forall x :: x in t.info ==> x in t.nodes)
    && 1 <= |t.nodes[p].keys| < |t.nodes[p].children|
  }

  /** Internal page `p` keeps the keys before the middle one; a new page takes those behind it, with their children. */
  ghost function PageDivided(t: Tree, p: int): Tree
    requires CanDividePage(t, p)
  {
    var n, mid := t.nodes[p], |t.nodes[p].keys| / 2;
    var low := n.(keys := n.keys[..mid], children := n.children[..mid + 1], rightSibPageID := t.next);
    var up := Node(t.next, false, n.parentPageID, p, n.rightSibPageID, n.keys[mid + 1..], [], n.children[mid + 1..]);
    var moved := map x | x in t.nodes ::
      if x in t.info && Moves(t, p, mid, x) then t.nodes[x].(parentPageID := t.next) else t.nodes[x];
    t.(nodes := moved[p := low][t.next := up],
       info := InnerSplitInfo(t, p, mid, t.next, Rank(Middle(n.keys))),
       next := t.next + 1)
  }

  ghost predicate CanRoot(t: Tree, q: Pending) {
    q.Pending? && q.left in t.nodes && q.right in t.nodes && q.left in t.info && q.right in t.info && t.root in t.info
  }

  /** A new root above the two pages. */
  ghost function NewRoot(t: Tree, q: Pending, key: Value): Tree
    requires CanRoot(t, q)
  {
    t.(nodes := t.nodes[t.next := Node(t.next, false, NO_PAGE, NO_PAGE, NO_PAGE, [key], [], [q.left, q.right])]
                       [q.left := t.nodes[q.left].(parentPageID := t.next)]
                       [q.right := t.nodes[q.right].(parentPageID := t.next)],
       info := RootedInfo(t, q), root := t.next, height := t.height + 1, next := t.next + 1)
  }

  /** A split reported upwards, through every page that it splits in turn. */
  ghost function Reported(t: Tree, q: Pending, key: Value): Tree
    decreases if q.Pending? && q.left in t.info then t.height - t.info[q.left].level else 0
  {
    if !q.Pending? || q.left !in t.nodes then t
    else if t.nodes[q.left].parentPageID == NO_PAGE then if CanRoot(t, q) then NewRoot(t, q, key) else t
    else if !CanAttach(t, q, key) then t
    else
      var p := t.nodes[q.left].parentPageID;
      var t' := PageAttached(t, q, key);
      if NodeSize(t'.nodes[p]) <= PAGE_CAPACITY then t'
      else if !CanDividePage(t', p) || q.left !in t.info || !(t.info[q.left].level < t'.info[p].level < t.height) then t'
      else Reported(PageDivided(t', p), Pending(p, t'.next), Middle(t'.nodes[p].keys))
  }

  /** The entry added, and its leaf split if it has grown beyond the capacity. */
  ghost function Inserted(t: Tree, key: Value, tid: Tid): Tree
    requires Chain(t) && NodesOk(t)
  {
    var p, t' := LeafFor(t, key), AddedTree(t, key, tid);
    if NodeSize(t'.nodes[p]) <= PAGE_CAPACITY || !CanDivideLeaf(t', p) then t'
    else Reported(LeafDivided(t', p), Pending(p, t'.next), Middle(t'.nodes[p].keys))
  }

  /** The index takes the key: every page written for it is within a disk page. */
  ghost predicate TreeTakes(t: Tree, key: Value) {
    Chain(t) && NodesOk(t) && InsertFits(t, key)
  }

  /** The page graph after inserting the entries, in order, into an empty index. */
  ghost function Built(t: Type, entries: seq<Entry>): Tree {
    if entries == [] then EmptyTree(t)
    else
      var front, last := entries[..|entries| - 1], entries[|entries| - 1];
      var b := Built(t, front);
      if TreeTakes(b, last.key) then Inserted(b, last.key, last.tid) else b
  }

  /** Each entry is taken by the index that holds the entries before it. */
  ghost predicate AllTaken(t: Type, entries: seq<Entry>) {
    forall i :: 0 <= i < |entries| ==> TreeTakes(Built(t, entries[..i]), entries[i].key)
  }

  lemma NoneTaken(t: Type)
    ensures Built(t, []) == EmptyTree(t) && AllTaken(t, [])
  {
  }

  lemma OneMoreTaken(t: Type, entries: seq<Entry>, e: Entry)
    ensures AllTaken(t, entries + [e]) <==> AllTaken(t, entries) && TreeTakes(Built(t, entries), e.key)
    ensures TreeTakes(Built(t, entries), e.key) ==> Built(t, entries + [e]) == Inserted(Built(t, entries), e.key, e.tid)
  {
    hide TreeTakes, Inserted;
    var all := entries + [e];
    assert all[..|entries|] == entries;
    assert forall i :: 0 <= i < |entries| ==> all[..i] == entries[..i] && all[i] == entries[i];
    if AllTaken(t, all) {
      forall i | 0 <= i < |entries| ensures TreeTakes(Built(t, entries[..i]), entries[i].key) {
        assert TreeTakes(Built(t, all[..i]), all[i].key);
      }
      assert TreeTakes(Built(t, all[..|entries|]), all[|entries|].key);
    }
  }

  lemma PrefixTaken(t: Type, entries: seq<Entry>, i: nat)
    requires i < |entries| && !TreeTakes(Built(t, entries[..i]), entries[i].key)
    ensures !AllTaken(t, entries)
  {
  }

  // ----- The steps give exactly these trees -----

  lemma PlaceIs(leaves: seq<int>, p: int, j: nat)
    requires j < |leaves| && leaves[j] == p && forall a, b :: 0 <= a < b < |leaves| ==> leaves[a] != leaves[b]
    ensures PlaceOf(leaves, p) == j
  {
  }

  lemma LeafDividedIs(t: Tree, t': Tree, n: Node, mid: nat, j: nat, low: Node, up: Node)
    requires Chain(t)
    requires n.pageID in t.info && n.pageID in t.nodes && n == t.nodes[n.pageID] && mid == |n.keys| / 2
    requires 1 <= |n.keys| == |n.values| && NO_PAGE !in t.nodes
    requires n.rightSibPageID != NO_PAGE ==> n.rightSibPageID in t.nodes
    requires low == n.(keys := n.keys[..mid], values := n.values[..mid], rightSibPageID := t.next)
    requires up == Node(t.next, true, n.parentPageID, n.pageID, n.rightSibPageID, n.keys[mid..], n.values[mid..], [])
    requires t' == t.(nodes := t'.nodes, info := t'.info, leaves := t'.leaves, next := t.next + 1)
    requires var s := t.nodes[n.pageID := low][t.next := up];
      t'.nodes == if n.rightSibPageID != NO_PAGE then s[n.rightSibPageID := t.nodes[n.rightSibPageID].(leftSibPageID := t.next)] else s
    requires t'.info == SplitInfo(t.info, n.pageID, t.next, Rank(n.keys[mid]))
    requires j < |t.leaves| && t.leaves[j] == n.pageID
    requires t'.leaves == t.leaves[..j + 1] + [t.next] + t.leaves[j + 1..]
    ensures CanDivideLeaf(t, n.pageID) && t' == LeafDivided(t, n.pageID)
  {
    PlaceIs(t.leaves, n.pageID, j);
  }

  lemma PageAttachedIs(t: Tree, t': Tree, q: Pending, key: Value, n: Node, n': Node, i: nat)
    requires q.Pending? && q.left in t.nodes && q.right in t.nodes && forall x :: x in t.info ==> x in t.nodes
    requires n.pageID in t.nodes && n == t.nodes[n.pageID] && n.pageID == t.nodes[q.left].parentPageID
    requires i < |n.children| && i <= |n.keys|
    requires forall k :: 0 <= k < i ==> Rank(n.keys[k]) <= Rank(key)
    requires forall k :: i <= k < |n.keys| ==> Rank(n.keys[k]) > Rank(key)
    requires n' == n.(keys := InsertKey(n.keys, i, key), children := n.children[..i + 1] + [q.right] + n.children[i + 1..])
    requires t' == t.(nodes := t.nodes[q.right := t.nodes[q.right].(parentPageID := n.pageID)][n.pageID := n'],
                      info := AttachInfo(t, q, n.pageID, i))
    ensures CanAttach(t, q, key) && t' == PageAttached(t, q, key)
  {
    hide Rank, InsertKey, AttachInfo;
    UpperPlaceIs(n.keys, key, i);
  }

  lemma PageDividedIs(t: Tree, t': Tree, n: Node, mid: nat, low: Node, up: Node)
    requires forall x :: x in t.info ==> x in t.nodes
    requires n.pageID in t.info && n.pageID in t.nodes && n == t.nodes[n.pageID] && mid == |n.keys| / 2
    requires |n.keys| >= 1 && |n.children| == |n.keys| + 1
    requires low == n.(keys := n.keys[..mid], children := n.children[..mid + 1], rightSibPageID := t.next)
    requires up == Node(t.next, false, n.parentPageID, n.pageID, n.rightSibPageID, n.keys[mid + 1..], [], n.children[mid + 1..])
    requires t' == t.(nodes := t'.nodes, info := InnerSplitInfo(t, n.pageID, mid, t.next, Rank(n.keys[mid])), next := t.next + 1)
    requires forall x :: x in t'.nodes <==> x in t.nodes || x == t.next
    requires forall x :: x in t.nodes && x != n.pageID && x != t.next ==>
      t'.nodes[x] == if x in t.info && Moves(t, n.pageID, mid, x) then t.nodes[x].(parentPageID := t.next) else t.nodes[x]
    requires n.pageID != t.next && t'.nodes[n.pageID] == low && t'.nodes[t.next] == up
    ensures CanDividePage(t, n.pageID) && t' == PageDivided(t, n.pageID)
  {
    hide Moves, InnerSplitInfo, Rank;
    var d := PageDivided(t, n.pageID);
    assert low == d.nodes[n.pageID] && up == d.nodes[t.next];
    forall x ensures x in t'.nodes <==> x in d.nodes {}
    forall x | x in t'.nodes ensures t'.nodes[x] == d.nodes[x] {}
    assert t'.nodes == d.nodes;
  }

  lemma AddedTreeIs(t: Tree, leaf: Node, key: Value, tid: Tid)
    requires Chain(t) && NodesOk(t) && leaf.pageID in t.info && t.info[leaf.pageID].level == 0 && Covers(t.info[leaf.pageID], key)
    requires leaf.pageID in t.nodes && leaf == t.nodes[leaf.pageID] && |leaf.values| == |leaf.keys|
    ensures t.(nodes := t.nodes[leaf.pageID := WithEntry(leaf, key, tid)],
               contents := t.contents[key := (if key in t.contents then t.contents[key] else []) + [tid]]) == AddedTree(t, key, tid)
    ensures LeafFor(t, key) == leaf.pageID
  {
  }

  lemma ReportedToRoot(t: Tree, q: Pending, key: Value)
    requires CanRoot(t, q) && t.nodes[q.left].parentPageID == NO_PAGE
    ensures Reported(t, q, key) == NewRoot(t, q, key)
  {
  }

  lemma ReportedToPage(t: Tree, q: Pending, key: Value)
    requires CanAttach(t, q, key) && t.nodes[q.left].parentPageID != NO_PAGE
    ensures var t', p := PageAttached(t, q, key), t.nodes[q.left].parentPageID;
      && (NodeSize(t'.nodes[p]) <= PAGE_CAPACITY ==> Reported(t, q, key) == t')
      && (NodeSize(t'.nodes[p]) > PAGE_CAPACITY && CanDividePage(t', p) && q.left in t.info && t.info[q.left].level < t'.info[p].level < t.height
          ==> Reported(t, q, key) == Reported(PageDivided(t', p), Pending(p, t'.next), Middle(t'.nodes[p].keys)))
  {
    hide NodeSize, PageDivided, Middle;
  }

  lemma InsertedIs(t: Tree, key: Value, tid: Tid)
    requires Chain(t) && NodesOk(t)
    ensures var t', p := AddedTree(t, key, tid), LeafFor(t, key);
      && (NodeSize(t'.nodes[p]) <= PAGE_CAPACITY ==> Inserted(t, key, tid) == t')
      && (NodeSize(t'.nodes[p]) > PAGE_CAPACITY && CanDivideLeaf(t', p)
          ==> Inserted(t, key, tid) == Reported(LeafDivided(t', p), Pending(p, t'.next), Middle(t'.nodes[p].keys)))
  {
    hide NodeSize, Reported, LeafDivided;
  }

  // ----- Where a run stops -----

  /** The first `n` entries are taken and leave a sound index of exactly them, into which the next one does not fit. */
  ghost predicate StopsAt(t: Type, entries: seq<Entry>, n: nat) {
    && n < |entries| && AllTaken(t, entries[..n])
    && var b := Built(t, entries[..n]);
    WellFormed(b, NoPending) && Files(b.contents, entries[..n], t) && !InsertFits(b, entries[n].key)
  }

  // ----- Runs that fit one page -----

  /** The size of one leaf in which each entry has a key of its own. */
  function LeafBound(entries: seq<Entry>): nat {
    if entries == [] then NODE_DATA_START
    else LeafBound(entries[..|entries| - 1]) + KeySize(entries[|entries| - 1].key) + 4 + TID_SIZE
  }

  /** A sound tree of one page within the bound of its entries. */
  ghost predicate OneLeaf(b: Tree, t: Type, entries: seq<Entry>) {
    && WellFormed(b, NoPending) && b.keyType == t && b.info == map[1 := Info(0, None, None, 0)]
    && 1 in b.nodes && NodeSize(b.nodes[1]) <= LeafBound(entries)
  }

  lemma EmptyIsOneLeaf(t: Type)
    ensures OneLeaf(EmptyTree(t), t, [])
  {
    assert 1 in EmptyTree(t).leaves;
  }

  lemma OneLeafGrows(b: Tree, t: Type, entries: seq<Entry>, e: Entry)
    requires OneLeaf(b, t, entries) && e.key.HasType(t) && LeafBound(entries + [e]) <= PAGE_CAPACITY
    ensures TreeTakes(b, e.key) && OneLeaf(Inserted(b, e.key, e.tid), t, entries + [e])
  {
    hide WellFormed, WithEntry, NodeSize, Rank, InsertFits, CascadeFits, SplitFits, Reported, LeafDivided, EntryAdded, Increasing;
    TreeParts(b, NoPending);
    var m := b.nodes[1];
    assert LeafFor(b, e.key) == 1 && NodeOk(b, 1) && m.pageID == 1 by {
      assert LeafFor(b, e.key) in b.info;
      PageOne(b);
    }
    assert (entries + [e])[..|entries|] == entries;
    WithEntryAdds(m, e.key, SOME_TID, t);
    WithEntryAdds(m, e.key, e.tid, t);
    EntryGrowth(m, WithEntry(m, e.key, SOME_TID), LowerPlace(m.keys, e.key), e.key, SOME_TID);
    EntryGrowth(m, WithEntry(m, e.key, e.tid), LowerPlace(m.keys, e.key), e.key, e.tid);
    FitsWhole(b, e.key);
    InsertedIs(b, e.key, e.tid);
    LeafInsertStep(b, Inserted(b, e.key, e.tid), m, WithEntry(m, e.key, e.tid), LowerPlace(m.keys, e.key), e.key, e.tid);
  }

  lemma PageOne(b: Tree)
    requires WellFormed(b, NoPending) && 1 in b.info
    ensures 1 in b.nodes && b.nodes[1].pageID == 1
  {
  }

  lemma FitsWhole(t: Tree, key: Value)
    requires Chain(t) && NodesOk(t) && NodeSize(GrownLeaf(t, key)) <= PAGE_CAPACITY
    ensures InsertFits(t, key)
  {
  }

  /** Entries that fit one leaf together, whatever keys they share, are all taken. */
  lemma {:induction false} SmallRun(t: Type, entries: seq<Entry>)
    requires LogHasType(entries, t) && LeafBound(entries) <= PAGE_CAPACITY
    ensures AllTaken(t, entries) && OneLeaf(Built(t, entries), t, entries)
  {
    hide AllTaken, TreeTakes, OneLeaf, EmptyTree, Inserted;
    if entries == [] {
      EmptyIsOneLeaf(t);
      NoneTaken(t);
    } else {
      var front, last := entries[..|entries| - 1], entries[|entries| - 1];
      assert entries == front + [last];
      SmallRun(t, front);
      OneLeafGrows(Built(t, front), t, front, last);
      OneMoreTaken(t, front, last);
    }
  }
}
