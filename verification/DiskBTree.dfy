/** The disk B+tree index over decoded pages. `nodes` is the page store; reading a page back
    after writing it is justified by the page codec (module BTreeCodec). */
module DiskBTree {
  import opened Values
  import opened Pages
  import opened KeyCodec
  import opened IndexLog
  import opened BTreeShape
  import opened BTreePages
  import opened BTreeSteps
  import opened BTreeScan
  import opened BTreeCascade
  import opened BTreeInt64
  import opened BTreeSeparators
  import opened BTreeKept
  import opened BTreeTheorems
  import opened BTreeModel

  datatype Meta = Meta(rootPageID: int, height: int, leftmostLeafID: int, nextPageID: int)

  lemma EmptyIsSound(t: Type)
    ensures WellFormed(EmptyTree(t), NoPending) && Tidy(EmptyTree(t)) && HoldsKeys(EmptyTree(t), 1, []) && Kept(EmptyTree(t), NO_PAGE)
  {
    assert 1 in EmptyTree(t).leaves;
  }

  /** What dividing leaf `n` into `low` and `up`, at place `j` of the chain, comes to. */
  lemma LeafDivides(t: Tree, t': Tree, n: Node, j: nat, low: Node, up: Node)
    requires WellFormed(t, NoPending) && NO_PAGE !in t.nodes && t.next !in t.nodes
    requires n.pageID in t.info && t.info[n.pageID].level == 0
    requires n.pageID in t.nodes && n == t.nodes[n.pageID] && n.pageID != t.next
    requires 1 <= |n.keys| == |n.values| && NodeSize(n) > PAGE_CAPACITY && SplitFits(n)
    requires n.rightSibPageID != n.pageID && n.rightSibPageID != t.next
    requires n.rightSibPageID != NO_PAGE ==> n.rightSibPageID in t.nodes
    requires var mid := |n.keys| / 2;
      && low == n.(keys := n.keys[..mid], values := n.values[..mid], rightSibPageID := t.next)
      && up == Node(t.next, true, n.parentPageID, n.pageID, n.rightSibPageID, n.keys[mid..], n.values[mid..], [])
      && t'.info == SplitInfo(t.info, n.pageID, t.next, Rank(n.keys[mid]))
    requires t' == t.(nodes := t'.nodes, info := t'.info, leaves := t'.leaves, next := t.next + 1)
    requires var s := t.nodes[n.pageID := low][t.next := up];
      t'.nodes == if n.rightSibPageID != NO_PAGE then s[n.rightSibPageID := t.nodes[n.rightSibPageID].(leftSibPageID := t.next)] else s
    requires j < |t.leaves| && t.leaves[j] == n.pageID && t'.leaves == t.leaves[..j + 1] + [t.next] + t.leaves[j + 1..]
    ensures CanDivideLeaf(t, n.pageID) && t' == LeafDivided(t, n.pageID)
    ensures WellFormed(t', Pending(n.pageID, t.next)) && Ancestors(t', n.pageID) == Ancestors(t, n.pageID)
    ensures n.pageID in t'.info && t'.info[n.pageID].level == 0 && t.next in t'.info && t'.info[t.next].lo == Some(Rank(Middle(n.keys)))
    ensures n.pageID in t'.nodes && t'.nodes[n.pageID] == low && t.next in t'.nodes && t'.nodes[t.next] == up
    ensures HoldsKeys(t', n.pageID, n.keys[..|n.keys| / 2]) && HoldsKeys(t', t.next, n.keys[|n.keys| / 2..])
    ensures OneMoreLeaf(t.leaves, t'.leaves, t.next)
    ensures Tidy(t) && |n.keys| >= 2 ==> Tidy(t') && NoEmptyLeaf(t')
    ensures Kept(t, n.pageID) && Divisible(t, n) ==> Kept(t', NO_PAGE) && Reportable(t', Pending(n.pageID, t.next), Middle(n.keys))
  {
    hide WellFormed, Kept, Divisible, Reportable, SplitFits, Ancestors, NodeSize, HoldsKeys, OneMoreLeaf, Tidy, NoEmptyLeaf, SplitInfo, Rank,
      LeafDivided, CanDivideLeaf;
    var mid := |n.keys| / 2;
    LeafSplitFromMaps(t, t', n, mid, j, low, up);
    TreeParts(t, NoPending);
    LeafDividedIs(t, t', n, mid, j, low, up);
    LeafSplitStep(t, t', n, mid, j, low, up);
    LeafSplitAncestors(t, t', n, mid, j, low, up);
    LeafSplitHolds(t, t', n, mid, j, low, up);
    if Kept(t, n.pageID) && Divisible(t, n) {
      KeptLeafSplit(t, t', n, mid, j, low, up);
    }
  }

  class DiskBTreeIndex {
    const keyType: Type
    var meta: Meta
    /** The metadata page; splits below the root do not refresh its nextPageID. */
    var metaPage: Meta
    var nodes: map<int, Node>

    /** Every (key, tid) inserted so far. */
    ghost var log: seq<Entry>
    ghost var contents: map<Value, seq<Tid>>
    ghost var info: map<int, Info>
    ghost var leaves: seq<int>
    /** Pages are handed out consecutively from 1; this one is the next that was never handed out. */
    ghost var top: int

    ghost function View(): Tree
      reads this
    {
      Tree(keyType, nodes, meta.rootPageID, meta.height, meta.leftmostLeafID, top, info, leaves, contents)
    }

    ghost predicate Stored()
      reads this
    {
      (forall p :: p in nodes <==> 1 <= p < top) && PagesFit(nodes)
    }

    ghost predicate MetaPageCurrent()
      reads this
    {
      metaPage == meta.(nextPageID := metaPage.nextPageID) && 2 <= metaPage.nextPageID <= meta.nextPageID <= top
    }

    /** The page graph is a search tree over exactly the logged entries, in pages that fit. */
    ghost predicate Sound()
      reads this
    {
      WellFormed(View(), NoPending) && Files(contents, log, keyType) && Stored() && MetaPageCurrent()
    }

    /** The index is sound and knows which pages it has handed out. */
    ghost predicate Valid()
      reads this
    {
      Sound() && meta.nextPageID == top
    }

    constructor (t: Type)
      ensures Valid() && Tidy(View()) && log == [] && keyType == t
      ensures meta == Meta(1, 1, 1, 2) && metaPage == meta && HoldsKeys(View(), 1, [])
      ensures Kept(View(), NO_PAGE) && View() == EmptyTree(t)
    {
      hide WellFormed, Tidy, Kept, HoldsKeys;
      keyType := t;
      meta := Meta(1, 1, 1, 2);
      metaPage := Meta(1, 1, 1, 2);
      nodes := map[1 := Node(1, true, NO_PAGE, NO_PAGE, NO_PAGE, [], [], [])];
      log, contents := [], map[];
      info := map[1 := Info(0, None, None, 0)];
      leaves := [1];
      top := 2;
      new;
      assert View() == EmptyTree(t);
      EmptyIsSound(t);
    }

    /** A new process starts from the metadata page. The index is sound, and it knows which pages are in
        use exactly when no page was handed out since that page was last written. */
    method Reopen()
      requires Sound()
      modifies `meta
      ensures Sound() && meta == metaPage
      ensures Valid() <==> metaPage.nextPageID !in nodes
    {
      ghost var t := View();
      meta := metaPage;
      assert View() == t;
    }

    static method LowerBound(keys: seq<Value>, key: Value) returns (lo: nat)
      requires Nondecreasing(keys) && forall i :: 0 <= i < |keys| ==> SameType(keys[i], key)
      ensures lo <= |keys|
      ensures forall i :: 0 <= i < lo ==> Rank(keys[i]) < Rank(key)
      ensures forall i :: lo <= i < |keys| ==> Rank(keys[i]) >= Rank(key)
    {
      lo := 0;
      var hi: nat := |keys|;
      while lo < hi
        invariant lo <= hi <= |keys|
        invariant forall i :: 0 <= i < lo ==> Rank(keys[i]) < Rank(key)
        invariant forall i :: hi <= i < |keys| ==> Rank(keys[i]) >= Rank(key)
      {
        var mid := (lo + hi) / 2;
        if Compare(keys[mid], key) < 0 {
          lo := mid + 1;
        } else {
          hi := mid;
        }
      }
    }

    static method UpperBound(keys: seq<Value>, key: Value) returns (lo: nat)
      requires Nondecreasing(keys) && forall i :: 0 <= i < |keys| ==> SameType(keys[i], key)
      ensures lo <= |keys|
      ensures forall i :: 0 <= i < lo ==> Rank(keys[i]) <= Rank(key)
      ensures forall i :: lo <= i < |keys| ==> Rank(keys[i]) > Rank(key)
    {
      lo := 0;
      var hi: nat := |keys|;
      while lo < hi
        invariant lo <= hi <= |keys|
        invariant forall i :: 0 <= i < lo ==> Rank(keys[i]) <= Rank(key)
        invariant forall i :: hi <= i < |keys| ==> Rank(keys[i]) > Rank(key)
      {
        var mid := (lo + hi) / 2;
        if Compare(keys[mid], key) <= 0 {
          lo := mid + 1;
        } else {
          hi := mid;
        }
      }
    }

    /** Descends from the root; `path` lists the pages read, one per level. */
    method FindLeaf(key: Value) returns (leaf: Node, path: seq<int>)
      requires Sound() && key.HasType(keyType)
      ensures leaf.pageID in info && leaf.pageID in nodes && nodes[leaf.pageID] == leaf
      ensures info[leaf.pageID].level == 0 && Covers(info[leaf.pageID], key)
      ensures |leaf.values| == |leaf.keys| && Increasing(leaf.keys) && Typed(leaf.keys, keyType)
      ensures Exact(leaf, info[leaf.pageID], contents)
      ensures |path| == meta.height
    {
      var current := meta.rootPageID;
      path := [];
      while true
        invariant current in info && Covers(info[current], key)
        invariant |path| == meta.height - 1 - info[current].level
        decreases info[current].level
      {
        var node := nodes[current];
        assert NodeOk(View(), current);
        path := path + [current];
        if node.isLeaf {
          return node, path;
        }
        var pos := UpperBound(node.keys, key);
        assert ChildOk(View(), NoPending, current, pos);
        current := node.children[pos];
      }
    }

    method Search(key: Value) returns (tids: seq<Tid>)
      requires Sound() && key.HasType(keyType)
      ensures tids == TidsOf(log, key)
    {
      hide WellFormed, Files, TidsOf, Exact, Covers, Rank;
      var leaf, _ := FindLeaf(key);
      TypedLikeKey(leaf.keys, key, keyType);
      var pos := LowerBound(leaf.keys, key);
      KeyAt(leaf, info[leaf.pageID], contents, log, keyType, key, pos);
      if pos >= |leaf.keys| || Compare(leaf.keys[pos], key) != 0 {
        return [];
      }
      return leaf.values[pos];
    }

    method RangeSearch(r: Range) returns (result: seq<Tid>)
      requires Sound() && r.HasType(keyType)
      ensures result == RangeTids(log, r, keyType)
    {
      hide WellFormed, Scanned, Complete, Files, Covers, Exact, RangeTids;
      ghost var t := View();
      TreeInScope(t, r);
      if r.from.Some? && r.to.Some? && Compare(r.from.value, r.to.value) > 0 {
        EmptyRange(t, r, log);
        return [];
      }
      var currentLeafID;
      var pos: nat;
      if r.from.None? {
        currentLeafID := meta.leftmostLeafID;
        pos := 0;
        ScanFromLeftmost(t, r);
      } else {
        var leaf, _ := FindLeaf(r.from.value);
        currentLeafID := leaf.pageID;
        pos := LowerBound(leaf.keys, r.from.value);
        ScanFromKey(t, r, currentLeafID, pos);
      }
      result := [];
      ghost var ks: seq<Value> := [];
      ghost var j := ScanStart(t, r, currentLeafID);
      ScanLeaf(t, r, j);
      while currentLeafID != NO_PAGE
        invariant result == Gather(log, ks)
        invariant currentLeafID != NO_PAGE ==> j < |leaves| && leaves[j] == currentLeafID && Scanned(t, r, currentLeafID, pos, ks)
        invariant currentLeafID != NO_PAGE ==> currentLeafID in nodes && pos <= |nodes[currentLeafID].keys|
        invariant currentLeafID == NO_PAGE ==> Complete(t, r, ks)
        decreases if currentLeafID == NO_PAGE then 0 else |leaves| - j
      {
        ScanLeaf(t, r, j);
        var leaf := nodes[currentLeafID];
        while pos < |leaf.keys|
          invariant pos <= |leaf.keys| && result == Gather(log, ks) && Scanned(t, r, currentLeafID, pos, ks)
        {
          var k := leaf.keys[pos];
          ScanKey(t, r, currentLeafID, pos, ks, log);
          if r.from.Some? {
            var cmp := Compare(k, r.from.value);
            if cmp < 0 || (!r.fromInclusive && cmp == 0) {
              pos := pos + 1;
              continue;
            }
          }
          if r.to.Some? {
            var cmp := Compare(k, r.to.value);
            if cmp > 0 || (!r.toInclusive && cmp == 0) {
              CompleteIsRange(t, r, ks, log);
              return;
            }
          }
          ks := ks + [k];
          result := result + leaf.values[pos];
          pos := pos + 1;
        }
        ScanLeafEnd(t, r, j, ks);
        j := j + 1;
        currentLeafID := leaf.rightSibPageID;
        pos := 0;
      }
      CompleteIsRange(t, r, ks, log);
    }

    /** The leaf in charge of `key` holds no other key, and one more TID makes it too big. */
    ghost predicate OneKeyOverflow(key: Value)
      reads this
    {
      AloneInLeaf(View(), key) && SingleKeySize(key, |TidsOf(log, key)| + 1) > PAGE_CAPACITY
    }

    /** In a reachable state an insert of a short key meets what `Insert` asks for. */
    lemma ShortSeparates(key: Value)
      requires Valid() && Kept(View(), NO_PAGE) && key.HasType(keyType) && KeySize(key) <= SHORT_KEY
      ensures InsertSeparates(View(), key)
    {
      NearSeparates(View(), key);
    }

    /** An INT64 index in a reachable state takes an entry exactly while its key has fewer than 1357 TIDs. */
    lemma Int64Room(key: Value)
      requires Valid() && keyType == INT64 && Kept(View(), NO_PAGE) && key.Int64?
      ensures InsertSeparates(View(), key)
      ensures InsertFits(View(), key) <==> |TidsOf(log, key)| + 1 <= MAX_TIDS
    {
      Int64Takes(View(), key, log);
    }

    /** Up to 1356 TIDs, an INT64 key is taken and leaves no leaf empty. */
    lemma RoomForKey(key: Value)
      requires Valid() && keyType == INT64 && Kept(View(), NO_PAGE)
      requires key.Int64? && |TidsOf(log, key)| + 1 <= 1356
      ensures InsertFits(View(), key) && InsertSeparates(View(), key) && !OneKeyOverflow(key)
    {
      Int64Takes(View(), key, log);
    }

    /** Finds the leaf in charge of `key` and adds the entry to its in-memory copy `n`. */
    method AddToLeaf(key: Value, tid: Tid) returns (n: Node, path: seq<int>)
      requires Valid() && key.HasType(keyType)
      modifies this`log, this`contents
      ensures log == old(log) + [Entry(key, tid)] && Files(contents, log, keyType)
      ensures n.pageID in info && info[n.pageID].level == 0 && n.pageID in nodes && |path| == meta.height
      ensures Added(old(View()), View().(nodes := nodes[n.pageID := n]), n, key, old(log))
      ensures |TidsOf(log, key)| == |TidsOf(old(log), key)| + 1
      ensures n.pageID == LeafFor(old(View()), key) && View().(nodes := nodes[n.pageID := n]) == AddedTree(old(View()), key, tid)
    {
      hide WellFormed, Files, TidsOf, Rank, EntryAdded, PagesFit, Exact, Covers, Added;
      var leaf;
      leaf, path := FindLeaf(key);
      ghost var t := View();
      ghost var pos;
      n, pos := InsertIntoLeaf(leaf, key, tid);
      TreeParts(t, NoPending);
      FilesSnoc(contents, log, keyType, Entry(key, tid));
      log := log + [Entry(key, tid)];
      contents := contents[key := (if key in contents then contents[key] else []) + [tid]];
      AddedTreeIs(t, leaf, key, tid);
      AddStep(t, View().(nodes := nodes[leaf.pageID := n]), leaf, n, pos, key, tid, old(log));
    }

    /** Adds the entry to the leaf in charge of its key; the leaf is split, with what that causes above
        it, exactly when it has grown beyond the capacity. Not `ok` stands for the panic of writing a
        page beyond its end; nothing is promised about the index after that. */
    method Insert(key: Value, tid: Tid) returns (ok: bool)
      requires Valid() && key.HasType(keyType) && InsertSeparates(View(), key)
      modifies this
      ensures ok <==> old(InsertFits(View(), key))
      ensures ok ==> Valid() && log == old(log) + [Entry(key, tid)] && View() == old(Inserted(View(), key, tid))
      ensures ok ==> LeafTook(old(View()), View(), key) && (meta == old(meta) <==> !old(InsertSplits(View(), key)))
      ensures ok ==> meta.height == old(meta.height) + if old(InsertGrows(View(), key)) then 1 else 0
      ensures ok ==> metaPage == if old(InsertGrows(View(), key)) then meta else old(metaPage)
      ensures ok && old(InsertGrows(View(), key)) ==>
        RootHolds(View(), CascadeRootKey(old(Ancestors(View(), LeafFor(View(), key))), Middle(old(GrownLeaf(View(), key)).keys)))
      ensures ok ==> (metaPage.nextPageID !in nodes <==>
        old(InsertGrows(View(), key)) || (old(metaPage.nextPageID !in nodes) && !old(InsertSplits(View(), key))))
      ensures ok && old(Tidy(View())) ==> (Tidy(View()) <==> !old(OneKeyOverflow(key)))
      ensures ok && old(Kept(View(), NO_PAGE)) && KeySize(key) <= SHORT_KEY ==> Kept(View(), NO_PAGE)
      ensures keyType == INT64 && old(Kept(View(), NO_PAGE)) ==> (ok <==> |TidsOf(old(log), key)| + 1 <= MAX_TIDS)
    {
      hide WellFormed, Tidy, Files, TidsOf, Kept, Divisible, PagesFit, NodeSize, SingleKeySize, AloneInLeaf, Covers,
        Ancestors, LeafFor, SameShape, GrownLeaf, CascadeFits, CascadeSeparates, CascadeGrows, SplitFits, Middle,
        CascadeRootKey, RootHolds, HoldsKeys, OneMoreLeaf, LeafTook, Rank,
        Added, InsertFits, InsertSplits, InsertSeparates, InsertGrows,
        AddedTree, LeafDivided, CanDivideLeaf, Reported, Inserted;
      ghost var t := View();
      TreeParts(t, NoPending);
      if keyType == INT64 && Kept(t, NO_PAGE) {
        Int64Takes(t, key, log);
      }
      var n, path := AddToLeaf(key, tid);
      AddedForesees(t, View().(nodes := nodes[n.pageID := n]), n, key, old(log));
      AddedKeeps(t, View().(nodes := nodes[n.pageID := n]), n, key, old(log));
      InsertedIs(t, key, tid);
      var size := EstimateSize(n);
      if size <= PAGE_CAPACITY {
        ok := WriteNode(n);
        WholeLeafTook(t, View(), n, key);
        LeafWrittenKept(View(), n);
      } else {
        ok := SplitLeaf(n, path);
        if ok {
          SplitLeafTook(t, View(), n, key);
        }
      }
    }

    /** No key of a sound INT64 index has more TIDs than fit one page. */
    lemma TidsBound(key: Value)
      requires Sound() && keyType == INT64
      ensures |TidsOf(log, key)| <= MAX_TIDS
    {
      hide WellFormed, Files, TidsOf, NodeSize;
      if |TidsOf(log, key)| > MAX_TIDS {
        TooManyTidsLogged(View(), key, log);
        assert false;
      }
    }

    static method InsertIntoLeaf(leaf: Node, key: Value, tid: Tid) returns (n: Node, ghost pos: nat)
      requires |leaf.values| == |leaf.keys| && Increasing(leaf.keys)
      requires forall i :: 0 <= i < |leaf.keys| ==> SameType(leaf.keys[i], key)
      ensures EntryAdded(leaf, n, pos, key, tid) && Increasing(n.keys) && n == WithEntry(leaf, key, tid)
    {
      var lo := LowerBound(leaf.keys, key);
      pos := lo;
      LowerPlaceIs(leaf.keys, key, lo);
      if lo < |leaf.keys| && Compare(leaf.keys[lo], key) == 0 {
        n := leaf.(values := leaf.values[lo := leaf.values[lo] + [tid]]);
        return;
      }
      InsertKeepsOrder(leaf.keys, lo, key);
      n := leaf.(
        keys := leaf.keys[..lo] + [key] + leaf.keys[lo..],
        values := leaf.values[..lo] + [[tid]] + leaf.values[lo..]);
    }

    /** Encoding a node that is larger than its page panics. */
    method WriteNode(n: Node) returns (ok: bool)
      modifies this`nodes
      ensures ok <==> NodeSize(n) <= PAGE_SIZE
      ensures ok ==> nodes == old(nodes)[n.pageID := n] && (old(PagesFit(nodes)) ==> PagesFit(nodes))
    {
      if NodeSize(n) > PAGE_SIZE {
        return false;
      }
      nodes := nodes[n.pageID := n];
      return true;
    }

    /** Writes the two leaves of a split and links the leaf to their right to the new one. */
    method WriteHalves(left: Node, newLeaf: Node) returns (ok: bool)
      requires PagesFit(nodes) && left.pageID != newLeaf.pageID
      requires newLeaf.rightSibPageID != NO_PAGE ==>
        && newLeaf.rightSibPageID in nodes && nodes[newLeaf.rightSibPageID].pageID == newLeaf.rightSibPageID
        && newLeaf.rightSibPageID != left.pageID && newLeaf.rightSibPageID != newLeaf.pageID
      modifies this`nodes
      ensures ok <==> NodeSize(left) <= PAGE_SIZE && NodeSize(newLeaf) <= PAGE_SIZE
      ensures ok ==>
        var s := old(nodes)[left.pageID := left][newLeaf.pageID := newLeaf];
        && PagesFit(nodes)
        && nodes == if newLeaf.rightSibPageID == NO_PAGE then s
                    else s[newLeaf.rightSibPageID := old(nodes)[newLeaf.rightSibPageID].(leftSibPageID := newLeaf.pageID)]
    {
      hide NodeSize, PagesFit;
      ok := WriteNode(left);
      if !ok {
        return;
      }
      ok := WriteNode(newLeaf);
      if !ok {
        return;
      }
      if newLeaf.rightSibPageID != NO_PAGE {
        var rightSib := nodes[newLeaf.rightSibPageID];
        Relinked(nodes, newLeaf.rightSibPageID, rightSib.(leftSibPageID := newLeaf.pageID));
        ok := WriteNode(rightSib.(leftSibPageID := newLeaf.pageID));
      }
    }

    /** The page writes of a leaf split, up to reporting the new leaf to the parent. */
    method DivideLeaf(leaf: Node) returns (ok: bool, left: Node, splitKey: Value, newLeaf: Node)
      requires leaf.pageID in info && info[leaf.pageID].level == 0 && leaf.pageID in nodes
      requires WellFormed(View().(nodes := nodes[leaf.pageID := leaf]), NoPending)
      requires |leaf.values| == |leaf.keys| >= 1 && Stored() && meta.nextPageID == top && NodeSize(leaf) > PAGE_CAPACITY
      modifies this
      ensures ok <==> SplitFits(leaf)
      ensures ok ==> WellFormed(View(), Pending(left.pageID, newLeaf.pageID)) && Stored() && meta.nextPageID == top
      ensures ok ==> left.pageID == leaf.pageID && left.pageID in nodes && left == nodes[left.pageID]
      ensures ok ==> newLeaf.pageID == old(meta.nextPageID) && newLeaf.pageID in nodes && newLeaf == nodes[newLeaf.pageID]
      ensures ok ==> splitKey == Middle(leaf.keys) && splitKey.HasType(keyType)
      ensures ok ==> newLeaf.pageID in info && info[newLeaf.pageID].lo == Some(Rank(splitKey))
      ensures ok ==> left.pageID in info && info[left.pageID].level == 0
      ensures ok ==> contents == old(contents) && log == old(log) && metaPage == old(metaPage)
      ensures ok ==> meta == old(meta).(nextPageID := old(meta).nextPageID + 1)
      ensures ok ==> CanDivideLeaf(old(View().(nodes := nodes[leaf.pageID := leaf])), leaf.pageID)
      ensures ok ==> View() == LeafDivided(old(View().(nodes := nodes[leaf.pageID := leaf])), leaf.pageID)
      ensures ok ==> HoldsKeys(View(), leaf.pageID, leaf.keys[..|leaf.keys| / 2])
      ensures ok ==> HoldsKeys(View(), old(meta.nextPageID), leaf.keys[|leaf.keys| / 2..])
      ensures ok ==> OneMoreLeaf(old(leaves), leaves, old(meta.nextPageID))
      ensures ok ==> Ancestors(View(), left.pageID) == old(Ancestors(View().(nodes := nodes[leaf.pageID := leaf]), leaf.pageID))
      ensures ok && Tidy(old(View().(nodes := nodes[leaf.pageID := leaf]))) && |leaf.keys| >= 2 ==> Tidy(View()) && NoEmptyLeaf(View())
      ensures ok && |leaf.keys| == 1 ==> left.keys == []
      ensures ok && old(Kept(View().(nodes := nodes[leaf.pageID := leaf]), leaf.pageID))
              && Divisible(old(View().(nodes := nodes[leaf.pageID := leaf])), leaf)
        ==> Kept(View(), NO_PAGE) && Reportable(View(), Pending(left.pageID, newLeaf.pageID), splitKey)
    {
      hide Kept, Divisible, Reportable, PagesFit, SplitFits, Ancestors, NodeSize, HoldsKeys, OneMoreLeaf;
      hide WellFormed, Tidy, NoEmptyLeaf, LeafSplit, SplitInfo, Rank, LeafDivided, CanDivideLeaf;
      ghost var t := View().(nodes := nodes[leaf.pageID := leaf]);
      ghost var j := LeafSplitSetup(t, leaf);
      var mid := |leaf.keys| / 2;
      var newPageID := meta.nextPageID;
      meta := meta.(nextPageID := meta.nextPageID + 1);
      top := top + 1;
      newLeaf := Node(newPageID, true, leaf.parentPageID, leaf.pageID, leaf.rightSibPageID,
                      leaf.keys[mid..], leaf.values[mid..], []);
      left := leaf.(keys := leaf.keys[..mid], values := leaf.values[..mid], rightSibPageID := newPageID);
      splitKey := newLeaf.keys[0];
      LeafHalfSizes(leaf, left, newLeaf);
      ok := WriteHalves(left, newLeaf);
      if !ok {
        return;
      }
      info := SplitInfo(info, leaf.pageID, newPageID, Rank(splitKey));
      leaves := leaves[..j + 1] + [newPageID] + leaves[j + 1..];
      LeafDivides(t, View(), leaf, j, left, newLeaf);
    }

    method SplitLeaf(leaf: Node, path: seq<int>) returns (ok: bool)
      requires leaf.pageID in info && info[leaf.pageID].level == 0 && leaf.pageID in nodes
      requires WellFormed(View().(nodes := nodes[leaf.pageID := leaf]), NoPending)
      requires |leaf.values| == |leaf.keys| >= 1 && Stored() && meta.nextPageID == top && NodeSize(leaf) > PAGE_CAPACITY
      requires |path| == meta.height
      requires CascadeSeparates(Ancestors(View().(nodes := nodes[leaf.pageID := leaf]), leaf.pageID), Middle(leaf.keys))
      modifies this
      ensures ok <==> SplitFits(leaf) && CascadeFits(old(Ancestors(View().(nodes := nodes[leaf.pageID := leaf]), leaf.pageID)), Middle(leaf.keys))
      ensures ok ==> WellFormed(View(), NoPending) && Stored() && meta.nextPageID == top && meta.nextPageID > old(meta.nextPageID)
      ensures ok ==> contents == old(contents) && log == old(log) && meta.leftmostLeafID == old(meta.leftmostLeafID)
      ensures ok ==> var grows := CascadeGrows(old(Ancestors(View().(nodes := nodes[leaf.pageID := leaf]), leaf.pageID)), Middle(leaf.keys));
        && meta.height == old(meta.height) + (if grows then 1 else 0)
        && metaPage == (if grows then meta else old(metaPage))
        && (!grows ==> meta.rootPageID == old(meta.rootPageID))
      ensures ok && CascadeGrows(old(Ancestors(View().(nodes := nodes[leaf.pageID := leaf]), leaf.pageID)), Middle(leaf.keys)) ==>
        RootHolds(View(), CascadeRootKey(old(Ancestors(View().(nodes := nodes[leaf.pageID := leaf]), leaf.pageID)), Middle(leaf.keys)))
      ensures ok ==> CanDivideLeaf(old(View().(nodes := nodes[leaf.pageID := leaf])), leaf.pageID)
      ensures ok ==> View() == Reported(LeafDivided(old(View().(nodes := nodes[leaf.pageID := leaf])), leaf.pageID),
                                        Pending(leaf.pageID, old(top)), Middle(leaf.keys))
      ensures ok ==> HoldsKeys(View(), leaf.pageID, leaf.keys[..|leaf.keys| / 2])
      ensures ok ==> HoldsKeys(View(), old(meta.nextPageID), leaf.keys[|leaf.keys| / 2..])
      ensures ok ==> OneMoreLeaf(old(leaves), leaves, old(meta.nextPageID))
      ensures ok && Tidy(old(View().(nodes := nodes[leaf.pageID := leaf]))) && |leaf.keys| >= 2 ==> Tidy(View())
      ensures ok && |leaf.keys| == 1 ==> !Tidy(View())
      ensures ok && old(Kept(View().(nodes := nodes[leaf.pageID := leaf]), leaf.pageID))
              && Divisible(old(View().(nodes := nodes[leaf.pageID := leaf])), leaf)
        ==> Kept(View(), NO_PAGE)
    {
      hide Kept, Divisible, Reportable, PagesFit, SplitFits, Ancestors, NodeSize, CascadeFits, CascadeSeparates, CascadeGrows, Middle;
      hide HoldsKeys, OneMoreLeaf, RootHolds, CascadeRootKey, WellFormed, Tidy, NoEmptyLeaf, LeavesKept, Rank, Value.HasType;
      hide LeafDivided, CanDivideLeaf, Reported;
      var left, splitKey, newLeaf;
      ok, left, splitKey, newLeaf := DivideLeaf(leaf);
      if !ok {
        return;
      }
      ghost var t' := View();
      ok := InsertIntoParent(left, splitKey, newLeaf, path);
      if ok {
        KeysKept(t', View(), leaf.pageID, leaf.keys[..|leaf.keys| / 2]);
        KeysKept(t', View(), newLeaf.pageID, leaf.keys[|leaf.keys| / 2..]);
      }
      if ok && |leaf.keys| == 1 {
        EmptyIsUntidy(View(), leaf.pageID);
      }
    }

    /** Reports a split to the page above: not `ok` when some page on the way up does not fit. */
    method InsertIntoParent(left: Node, key: Value, right: Node, path: seq<int>) returns (ok: bool)
      requires WellFormed(View(), Pending(left.pageID, right.pageID)) && Stored() && meta.nextPageID == top
      requires left.pageID in nodes && right.pageID in nodes
      requires left == nodes[left.pageID] && right == nodes[right.pageID]
      requires key.HasType(keyType) && info[right.pageID].lo == Some(Rank(key))
      requires CascadeSeparates(Ancestors(View(), left.pageID), key)
      requires |path| == meta.height - info[left.pageID].level
      modifies this
      ensures ok <==> CascadeFits(old(Ancestors(View(), left.pageID)), key)
      ensures ok ==> WellFormed(View(), NoPending) && Stored() && meta.nextPageID == top
      ensures ok ==> Grown(old(View()), View()) && log == old(log) && meta.height >= 2
      ensures ok ==> var grows := CascadeGrows(old(Ancestors(View(), left.pageID)), key);
        && meta.height == old(meta.height) + (if grows then 1 else 0)
        && metaPage == (if grows then meta else old(metaPage))
      ensures ok && CascadeGrows(old(Ancestors(View(), left.pageID)), key) ==>
        RootHolds(View(), CascadeRootKey(old(Ancestors(View(), left.pageID)), key))
      ensures ok ==> View() == Reported(old(View()), Pending(left.pageID, right.pageID), key)
      ensures ok && old(Kept(View(), NO_PAGE)) && Reportable(old(View()), Pending(left.pageID, right.pageID), key)
        ==> Kept(View(), NO_PAGE)
      decreases meta.height - info[left.pageID].level, 0
    {
      hide Kept, Reportable, PagesFit, SplitFits, NodeSize, Ancestors, InnerSize;
      hide WellFormed, Tidy, NoEmptyLeaf, LeavesKept, Rank, WithSeparator;
      hide CanRoot, NewRoot, CanAttach, PageAttached, CanDividePage, PageDivided, Reported, Middle;
      PendingSetup(View(), Pending(left.pageID, right.pageID));
      PendingAncestors(View(), Pending(left.pageID, right.pageID));
      if left.parentPageID == NO_PAGE {
        ghost var was := View();
        ok := CreateNewRoot(left, key, right);
        if ok {
          ReportedToRoot(was, Pending(left.pageID, right.pageID), key);
        }
        return;
      }
      ghost var t := View();
      ghost var up;
      var parent;
      parent, up := AddToParent(left, key, right);
      ghost var t' := View().(nodes := nodes[parent.pageID := parent]);
      ReportedToPage(t, Pending(left.pageID, right.pageID), key);
      var size := EstimateSize(parent);
      if size <= PAGE_CAPACITY {
        ok := WriteNode(parent);
        assert View() == t';
        LeafWrittenKept(View(), parent);
        return;
      }
      ok := SplitInternal(parent, path[..|path| - 1]);
      if ok {
        GrownTransitive(t, t', View());
      }
    }

    /** Reads the parent, adds the separator and the right half to the in-memory copy,
        and writes the right half with its parent pointer. */
    method AddToParent(left: Node, key: Value, right: Node) returns (parent: Node, ghost up: Above)
      requires WellFormed(View(), Pending(left.pageID, right.pageID)) && Stored()
      requires left.pageID in nodes && right.pageID in nodes
      requires left == nodes[left.pageID] && right == nodes[right.pageID]
      requires left.pageID != meta.rootPageID
      requires key.HasType(keyType) && info[right.pageID].lo == Some(Rank(key))
      modifies this`nodes, this`info
      ensures parent.pageID in info && parent.pageID in nodes && |parent.keys| >= 1
      ensures info[parent.pageID].level == old(info[left.pageID].level) + 1 && info[parent.pageID].level < meta.height
      ensures WellFormed(View().(nodes := nodes[parent.pageID := parent]), NoPending) && Stored()
      ensures Grown(old(View()), View().(nodes := nodes[parent.pageID := parent]))
      ensures parent.pageID == left.parentPageID && CanAttach(old(View()), Pending(left.pageID, right.pageID), key)
      ensures View().(nodes := nodes[parent.pageID := parent]) == PageAttached(old(View()), Pending(left.pageID, right.pageID), key)
      ensures up.hi == info[parent.pageID].hi && parent.keys == WithSeparator(up.keys, key) && NodeSize(parent) == InnerSize(parent.keys)
      ensures old(Ancestors(View(), left.pageID)) == [up] + Ancestors(View().(nodes := nodes[parent.pageID := parent]), parent.pageID)
      ensures old(Kept(View(), NO_PAGE)) && Reportable(old(View()), Pending(left.pageID, right.pageID), key) ==>
        Kept(View().(nodes := nodes[parent.pageID := parent]), parent.pageID)
    {
      hide Kept, Reportable, PagesFit, NodeSize, InnerSize, Ancestors, WithSeparator;
      hide WellFormed, Grown, Attached, InnerOk, Rank, CanAttach, PageAttached;
      ghost var t := View();
      ghost var q := Pending(left.pageID, right.pageID);
      PendingSetup(t, q);
      var n := nodes[left.parentPageID];
      var pos := UpperBound(n.keys, key);
      AttachSetup(t, q, key, pos);
      parent := n.(
        keys := n.keys[..pos] + [key] + n.keys[pos..],
        children := n.children[..pos + 1] + [right.pageID] + n.children[pos + 1..]);
      Relinked(nodes, right.pageID, right.(parentPageID := n.pageID));
      var ok := WriteNode(right.(parentPageID := n.pageID));
      info := AttachInfo(t, q, n.pageID, pos);
      up := Above(n.keys, info[n.pageID].hi);
      PageAttachedIs(t, View().(nodes := nodes[n.pageID := parent]), q, key, n, parent, pos);
      AttachedFromMaps(t, View().(nodes := nodes[n.pageID := parent]), q, key, n, parent);
      AttachStep(t, View().(nodes := nodes[n.pageID := parent]), q, key, n, parent);
      AttachKeys(t, View().(nodes := nodes[n.pageID := parent]), q, key, n, parent);
      AttachAncestors(t, View().(nodes := nodes[n.pageID := parent]), q, key, n, parent);
      if Kept(t, NO_PAGE) && Reportable(t, q, key) {
        KeptAttach(t, View().(nodes := nodes[n.pageID := parent]), q, key, n, parent);
      }
    }

    method CreateNewRoot(left: Node, key: Value, right: Node) returns (ok: bool)
      requires WellFormed(View(), Pending(left.pageID, right.pageID)) && Stored() && meta.nextPageID == top
      requires left.pageID in nodes && right.pageID in nodes
      requires left == nodes[left.pageID] && right == nodes[right.pageID]
      requires left.pageID == meta.rootPageID
      requires key.HasType(keyType) && info[right.pageID].lo == Some(Rank(key))
      modifies this
      ensures ok <==> InnerSize([key]) <= PAGE_SIZE
      ensures ok ==> WellFormed(View(), NoPending) && Stored() && meta.nextPageID == top
      ensures ok ==> Grown(old(View()), View()) && log == old(log)
      ensures ok ==> meta.height == old(meta.height) + 1 && meta.height >= 2 && metaPage == meta && RootHolds(View(), key)
      ensures ok ==> CanRoot(old(View()), Pending(left.pageID, right.pageID))
      ensures ok ==> View() == NewRoot(old(View()), Pending(left.pageID, right.pageID), key)
      ensures ok && old(Kept(View(), NO_PAGE)) && Reportable(old(View()), Pending(left.pageID, right.pageID), key)
        ==> Kept(View(), NO_PAGE)
    {
      hide Kept, Reportable, PagesFit, NodeSize, InnerSize;
      hide WellFormed, Grown, Rooted, Rank;
      ghost var t := View();
      PendingSetup(t, Pending(left.pageID, right.pageID));
      var newRootID := meta.nextPageID;
      var newRoot := Node(newRootID, false, NO_PAGE, NO_PAGE, NO_PAGE, [key], [], [left.pageID, right.pageID]);
      RootSize(newRoot, key);
      ok := WriteNode(newRoot);
      if !ok {
        return;
      }
      Relinked(nodes, left.pageID, left.(parentPageID := newRootID));
      ok := WriteNode(left.(parentPageID := newRootID));
      Relinked(nodes, right.pageID, right.(parentPageID := newRootID));
      ok := WriteNode(right.(parentPageID := newRootID));
      meta := Meta(newRootID, meta.height + 1, meta.leftmostLeafID, meta.nextPageID + 1);
      top := top + 1;
      metaPage := meta;
      info := RootedInfo(t, Pending(left.pageID, right.pageID));
      RootedFromMaps(t, View(), Pending(left.pageID, right.pageID), key);
      RootedStep(t, View(), Pending(left.pageID, right.pageID), key);
      if Kept(t, NO_PAGE) && Reportable(t, Pending(left.pageID, right.pageID), key) {
        KeptRooted(t, View(), Pending(left.pageID, right.pageID), key);
      }
    }

    method SplitInternal(node: Node, path: seq<int>) returns (ok: bool)
      requires node.pageID in info && info[node.pageID].level > 0 && node.pageID in nodes
      requires WellFormed(View().(nodes := nodes[node.pageID := node]), NoPending)
      requires |node.keys| >= 1 && NodeSize(node) > PAGE_CAPACITY && |path| == meta.height - info[node.pageID].level && Stored() && meta.nextPageID == top
      requires Below(info[node.pageID].hi, Rank(Middle(node.keys)))
      requires CascadeSeparates(Ancestors(View().(nodes := nodes[node.pageID := node]), node.pageID), Middle(node.keys))
      modifies this
      ensures ok <==>
        && InnerSize(node.keys[..|node.keys| / 2]) <= PAGE_SIZE && InnerSize(node.keys[|node.keys| / 2 + 1..]) <= PAGE_SIZE
        && CascadeFits(old(Ancestors(View().(nodes := nodes[node.pageID := node]), node.pageID)), Middle(node.keys))
      ensures ok ==> WellFormed(View(), NoPending) && Stored() && meta.nextPageID == top
      ensures ok ==> Grown(old(View().(nodes := nodes[node.pageID := node])), View()) && log == old(log) && meta.height >= 2
      ensures ok ==> var grows := CascadeGrows(old(Ancestors(View().(nodes := nodes[node.pageID := node]), node.pageID)), Middle(node.keys));
        && meta.height == old(meta.height) + (if grows then 1 else 0)
        && metaPage == (if grows then meta else old(metaPage))
      ensures ok && CascadeGrows(old(Ancestors(View().(nodes := nodes[node.pageID := node]), node.pageID)), Middle(node.keys)) ==>
        RootHolds(View(), CascadeRootKey(old(Ancestors(View().(nodes := nodes[node.pageID := node]), node.pageID)), Middle(node.keys)))
      ensures ok ==> CanDividePage(old(View().(nodes := nodes[node.pageID := node])), node.pageID)
      ensures ok ==> View() == Reported(PageDivided(old(View().(nodes := nodes[node.pageID := node])), node.pageID),
                                        Pending(node.pageID, old(top)), Middle(node.keys))
      ensures ok && old(Kept(View().(nodes := nodes[node.pageID := node]), node.pageID)) ==> Kept(View(), NO_PAGE)
      decreases meta.height - info[node.pageID].level, 1
    {
      hide Kept, Reportable, PagesFit, NodeSize, InnerSize, Ancestors, CascadeFits, CascadeSeparates, CascadeGrows, Middle, Rank;
      hide CanDividePage, PageDivided, Reported;
      ghost var t := View().(nodes := nodes[node.pageID := node]);
      var left, splitKey, newNode;
      ok, left, splitKey, newNode := DivideInternal(node);
      if !ok {
        return;
      }
      ghost var t' := View();
      ok := InsertIntoParent(left, splitKey, newNode, path);
      if ok {
        GrownTransitive(t, t', View());
      }
    }

    /** The page writes of an internal split, up to reporting the new page to the parent. */
    method DivideInternal(node: Node) returns (ok: bool, left: Node, splitKey: Value, newNode: Node)
      requires node.pageID in info && info[node.pageID].level > 0 && node.pageID in nodes
      requires WellFormed(View().(nodes := nodes[node.pageID := node]), NoPending)
      requires |node.keys| >= 1 && NodeSize(node) > PAGE_CAPACITY && Stored() && meta.nextPageID == top
      requires Below(info[node.pageID].hi, Rank(Middle(node.keys)))
      modifies this
      ensures ok <==> InnerSize(node.keys[..|node.keys| / 2]) <= PAGE_SIZE && InnerSize(node.keys[|node.keys| / 2 + 1..]) <= PAGE_SIZE
      ensures ok ==> WellFormed(View(), Pending(left.pageID, newNode.pageID)) && Stored() && meta.nextPageID == top
      ensures ok ==> left.pageID == node.pageID && left.pageID in nodes && left == nodes[left.pageID]
      ensures ok ==> newNode.pageID in nodes && newNode == nodes[newNode.pageID]
      ensures ok ==> splitKey == Middle(node.keys) && splitKey.HasType(keyType)
      ensures ok ==> newNode.pageID in info && info[newNode.pageID].lo == Some(Rank(splitKey))
      ensures ok ==> left.pageID in info && info[left.pageID].level == old(info[node.pageID].level)
      ensures ok ==> Ancestors(View(), left.pageID) == old(Ancestors(View().(nodes := nodes[node.pageID := node]), node.pageID))
      ensures ok ==> Grown(old(View().(nodes := nodes[node.pageID := node])), View())
      ensures ok ==> newNode.pageID == old(top) && CanDividePage(old(View().(nodes := nodes[node.pageID := node])), node.pageID)
      ensures ok ==> View() == PageDivided(old(View().(nodes := nodes[node.pageID := node])), node.pageID)
      ensures ok ==> log == old(log) && metaPage == old(metaPage)
      ensures ok ==> meta == old(meta).(nextPageID := old(meta).nextPageID + 1)
      ensures ok && old(Kept(View().(nodes := nodes[node.pageID := node]), node.pageID)) ==>
        Kept(View(), NO_PAGE) && Reportable(View(), Pending(left.pageID, newNode.pageID), splitKey)
    {
      hide Kept, Reportable, PagesFit, NodeSize, InnerSize, Ancestors;
      hide WellFormed, Grown, InnerSplit, Domain, ChildrenOk, ParentsOk, RootOk, Rank, CanDividePage, PageDivided, Moves, InnerSplitInfo;
      ghost var t := View().(nodes := nodes[node.pageID := node]);
      InnerSplitSetup(t, node);
      var mid := |node.keys| / 2;
      splitKey := node.keys[mid];
      var newPageID := meta.nextPageID;
      meta := meta.(nextPageID := meta.nextPageID + 1);
      top := top + 1;
      newNode := Node(newPageID, false, node.parentPageID, node.pageID, node.rightSibPageID,
                      node.keys[mid + 1..], [], node.children[mid + 1..]);
      left := node.(keys := node.keys[..mid], children := node.children[..mid + 1], rightSibPageID := newPageID);
      InnerHalfSizes(node, mid, left, newNode);
      MoveChildren(t, node, mid, newNode.children, newPageID);
      ok := WriteNode(left);
      if !ok {
        return;
      }
      ok := WriteNode(newNode);
      if !ok {
        return;
      }
      info := InnerSplitInfo(t, node.pageID, mid, newPageID, Rank(splitKey));
      PageDividedIs(t, View(), node, mid, left, newNode);
      InnerSplitFromMaps(t, View(), node, mid, left, newNode);
      InnerSplitStep(t, View(), node, mid, left, newNode);
      InnerSplitAncestors(t, View(), node, mid, left, newNode);
      if Kept(t, node.pageID) {
        KeptInnerSplit(t, View(), node, mid, left, newNode);
      }
    }

    /** Points the children of the new page at it. */
    method MoveChildren(ghost t: Tree, ghost node: Node, ghost mid: nat, children: seq<int>, newPageID: int)
      requires Domain(t) && ChildrenOk(t, NoPending) && ParentsOk(t, NoPending) && RootOk(t, NoPending)
      requires node.pageID in t.info && node.pageID in t.nodes && node == t.nodes[node.pageID] && t.info[node.pageID].level > 0
      requires |node.children| == |node.keys| + 1 && mid < |node.keys| && children == node.children[mid + 1..]
      requires node.pageID in nodes && t.nodes == nodes[node.pageID := node] && PagesFit(nodes)
      modifies this`nodes
      ensures PagesFit(nodes) && forall x :: x in nodes <==> x in t.nodes
      ensures forall x :: x in t.nodes && x != node.pageID ==>
        nodes[x] == if x in t.info && Moves(t, node.pageID, mid, x) then t.nodes[x].(parentPageID := newPageID) else t.nodes[x]
    {
      hide PagesFit, NodeSize;
      var i := 0;
      while i < |children|
        invariant 0 <= i <= |children| && PagesFit(nodes)
        invariant forall x :: x in nodes <==> x in t.nodes
        invariant forall x :: x in t.nodes && x != node.pageID ==>
          nodes[x] == if x in t.info && Moves(t, node.pageID, mid, x) && t.info[x].pos <= mid + i
                      then t.nodes[x].(parentPageID := newPageID) else t.nodes[x]
      {
        var childID := children[i];
        MovedChild(t, node, mid, i);
        var child := nodes[childID];
        Relinked(nodes, childID, child.(parentPageID := newPageID));
        var ok := WriteNode(child.(parentPageID := newPageID));
        i := i + 1;
      }
      forall x | x in t.info && x in t.nodes && t.nodes[x].parentPageID == node.pageID ensures t.info[x].pos <= mid + |children| {
        assert x != t.root ==> ParentOk(t, x);
      }
    }

    static method EstimateSize(n: Node) returns (size: nat)
      ensures size == NodeSize(n)
    {
      size := NODE_DATA_START;
      var i := 0;
      while i < |n.keys|
        invariant 0 <= i <= |n.keys| && size == NODE_DATA_START + KeysSize(n.keys[..i])
      {
        assert n.keys[..i + 1][..i] == n.keys[..i];
        size := size + KeySize(n.keys[i]);
        i := i + 1;
      }
      assert n.keys[..i] == n.keys;
      if n.isLeaf {
        i := 0;
        while i < |n.values|
          invariant 0 <= i <= |n.values| && size == NODE_DATA_START + KeysSize(n.keys) + ValuesSize(n.values[..i])
        {
          assert n.values[..i + 1][..i] == n.values[..i];
          size := size + 4 + |n.values[i]| * TID_SIZE;
          i := i + 1;
        }
        assert n.values[..i] == n.values;
      } else {
        size := size + |n.children| * 4;
      }
    }

    /** The tree is shallow: h levels over INT64 keys need at least 340^(h-2) distinct keys, and twice as
        many while no leaf was left empty. */
    lemma HeightBound()
      requires Sound() && keyType == INT64 && Kept(View(), NO_PAGE) && meta.height >= 2
      ensures |contents| >= Pow340(meta.height - 2)
      ensures Tidy(View()) ==> |contents| >= 2 * Pow340(meta.height - 2)
      ensures forall k :: k in contents <==> TidsOf(log, k) != []
    {
      hide WellFormed, Int64Pages, TidsOf, Near, Tidy, NoEmptyLeaf, PagesFit;
      PopulatedHeight(View());
      if Tidy(View()) {
        TidyLeaves(View());
        HeightIsLogarithmic(View());
      }
    }
  }
}
