/** Each page update of a B+tree insert, as a step from one tree state to the next,
    with the proof that the step keeps the page-graph invariant. */
module BTreeSteps {
  import opened Values
  import opened Pages
  import opened BTreeShape
  import opened BTreePages

  // ----- Adding an entry to a leaf -----

  /** `n` is `m` with `tids` now stored under `key`. */
  ghost predicate LeafWith(m: Node, n: Node, key: Value, tids: seq<Tid>) {
    && |m.values| == |m.keys| && |n.values| == |n.keys|
    && n == m.(keys := n.keys, values := n.values)
    && (forall j :: 0 <= j < |n.keys| ==>
          if n.keys[j] == key then n.values[j] == tids
          else exists i :: 0 <= i < |m.keys| && m.keys[i] == n.keys[j] && m.values[i] == n.values[j])
    && (forall i :: 0 <= i < |m.keys| ==> m.keys[i] in n.keys)
    && key in n.keys
  }

  ghost function InsertKey(keys: seq<Value>, i: nat, key: Value): seq<Value>
    requires i <= |keys|
  {
    keys[..i] + [key] + keys[i..]
  }

  /** `n` is leaf `m` with `tid` appended under `key`, at key index `i`. */
  ghost predicate EntryAdded(m: Node, n: Node, i: nat, key: Value, tid: Tid) {
    && |m.values| == |m.keys| && i <= |m.keys|
    && if i < |m.keys| && m.keys[i] == key
       then n == m.(values := m.values[i := m.values[i] + [tid]])
       else key !in m.keys
            && n == m.(keys := InsertKey(m.keys, i, key), values := m.values[..i] + [[tid]] + m.values[i..])
  }

  lemma EntryAddedOk(m: Node, n: Node, i: nat, key: Value, tid: Tid, at: Info, t: Type)
    requires EntryAdded(m, n, i, key, tid) && Increasing(n.keys)
    requires LeafOk(m, at, t) && Covers(at, key) && key.HasType(t)
    ensures LeafOk(n, at, t)
  {
    forall j | 0 <= j < |n.keys| ensures n.keys[j].HasType(t) && Covers(at, n.keys[j]) {
      assert n.keys != m.keys ==> n.keys[j] == if j < i then m.keys[j] else if j == i then key else m.keys[j - 1];
    }
  }

  lemma EntryAddedIsLeafWith(m: Node, n: Node, i: nat, key: Value, tid: Tid, at: Info, contents: map<Value, seq<Tid>>)
    requires EntryAdded(m, n, i, key, tid) && Increasing(m.keys)
    requires Exact(m, at, contents) && Covers(at, key)
    ensures LeafWith(m, n, key, (if key in contents then contents[key] else []) + [tid])
  {
    if i < |m.keys| && m.keys[i] == key {
      forall j | 0 <= j < |n.keys| && n.keys[j] != key
        ensures exists k :: 0 <= k < |m.keys| && m.keys[k] == n.keys[j] && m.values[k] == n.values[j]
      {
        assert m.keys[j] == n.keys[j] && m.values[j] == n.values[j];
      }
    } else {
      EntryInserted(m, n, i, key, tid);
    }
  }

  lemma EntryInserted(m: Node, n: Node, i: nat, key: Value, tid: Tid)
    requires |m.values| == |m.keys| && i <= |m.keys| && key !in m.keys
    requires n == m.(keys := InsertKey(m.keys, i, key), values := m.values[..i] + [[tid]] + m.values[i..])
    ensures LeafWith(m, n, key, [tid])
  {
    forall j | 0 <= j < |n.keys| && n.keys[j] != key
      ensures exists k :: 0 <= k < |m.keys| && m.keys[k] == n.keys[j] && m.values[k] == n.values[j]
    {
      var k := if j < i then j else j - 1;
      assert m.keys[k] == n.keys[j] && m.values[k] == n.values[j];
    }
    forall k | 0 <= k < |m.keys| ensures m.keys[k] in n.keys {
      assert n.keys[if k < i then k else k + 1] == m.keys[k];
    }
    assert n.keys[i] == key;
  }

  lemma LeafInsertKeepsExact(m: Node, n: Node, i: Info, contents: map<Value, seq<Tid>>, key: Value, tids: seq<Tid>)
    requires LeafWith(m, n, key, tids)
    requires Exact(m, i, contents)
    ensures Exact(n, i, contents[key := tids])
  {
    forall k | k in contents[key := tids] && Covers(i, k) ensures k in n.keys {
      if k != key {
        assert k in m.keys;
        var j :| 0 <= j < |m.keys| && m.keys[j] == k;
      }
    }
  }

  /** The chain only looks at the links and intervals of leaves. */
  lemma ChainFrame(t: Tree, t': Tree)
    requires Chain(t)
    requires t'.leaves == t.leaves && t'.leftmost == t.leftmost
    requires forall p :: p in t.info && t.info[p].level == 0 ==>
      && p in t'.info && p in t'.nodes && p in t.nodes
      && t'.info[p].level == 0 && t'.info[p].lo == t.info[p].lo && t'.info[p].hi == t.info[p].hi
      && t'.nodes[p].leftSibPageID == t.nodes[p].leftSibPageID
      && t'.nodes[p].rightSibPageID == t.nodes[p].rightSibPageID
    requires forall p :: p in t'.info && t'.info[p].level == 0 ==> p in t.info && t.info[p].level == 0
    ensures Chain(t')
  {
    forall i | 0 <= i < |t'.leaves| ensures LinkOk(t', i) {
      assert LinkOk(t, i);
      assert i > 0 ==> LinkOk(t, i - 1);
    }
    forall i, j | 0 <= i < j < |t'.leaves| ensures t'.leaves[i] != t'.leaves[j] && Precedes(t', t'.leaves[i], t'.leaves[j]) {
      assert Precedes(t, t.leaves[i], t.leaves[j]);
      assert LinkOk(t, i) && LinkOk(t, j);
    }
  }

  lemma LeafInsertKeepsChildren(t: Tree, t': Tree, n: Node)
    requires NodesOk(t) && ChildrenOk(t, NoPending)
    requires n.pageID in t.info && t.info[n.pageID].level == 0
    requires n == t.nodes[n.pageID].(keys := n.keys, values := n.values)
    requires t'.info == t.info && t'.nodes == t.nodes[n.pageID := n]
    ensures ChildrenOk(t', NoPending)
  {
    forall r, i | r in t'.info && r in t'.nodes && t'.info[r].level > 0 && 0 <= i < |t'.nodes[r].children|
      ensures ChildOk(t', NoPending, r, i)
    {
      assert t.nodes[r].children[i] == t'.nodes[r].children[i];
    }
  }

  lemma LeafInsertKeepsParents(t: Tree, t': Tree, n: Node)
    requires ParentsOk(t, NoPending)
    requires n.pageID in t.info && n.pageID in t.nodes
    requires n == t.nodes[n.pageID].(keys := n.keys, values := n.values)
    requires t'.info == t.info && t'.nodes == t.nodes[n.pageID := n] && t'.root == t.root
    ensures ParentsOk(t', NoPending)
  {
    forall c | c in t'.info && c != t'.root ensures ParentOk(t', c) {
      assert ParentOk(t, c);
    }
  }

  lemma LeafInsertKeepsNodes(t: Tree, t': Tree, n: Node, key: Value, tids: seq<Tid>)
    requires NodesOk(t) && Chain(t)
    requires n.pageID in t.info && t.info[n.pageID].level == 0
    requires Covers(t.info[n.pageID], key)
    requires LeafWith(t.nodes[n.pageID], n, key, tids)
    requires LeafOk(n, t.info[n.pageID], t.keyType)
    requires t'.info == t.info && t'.nodes == t.nodes[n.pageID := n] && t'.keyType == t.keyType
    requires t'.contents == t.contents[key := tids]
    ensures NodesOk(t')
  {
    forall r | r in t'.info ensures r in t'.nodes && NodeOk(t', r) {
      assert NodeOk(t, r);
      if r == n.pageID {
        LeafInsertKeepsExact(t.nodes[r], n, t.info[r], t.contents, key, tids);
      } else if t.info[r].level == 0 && Covers(t.info[r], key) {
        LeavesAreDisjoint(t, n.pageID, r, key);
      }
    }
  }

  lemma LeafInsertKeepsChain(t: Tree, t': Tree, n: Node, key: Value, tids: seq<Tid>)
    requires Domain(t) && Chain(t) && RootOk(t, NoPending)
    requires n.pageID in t.info && t.info[n.pageID].level == 0 && key.HasType(t.keyType)
    requires LeafWith(t.nodes[n.pageID], n, key, tids)
    requires t' == t.(nodes := t.nodes[n.pageID := n], contents := t.contents[key := tids])
    ensures Domain(t') && Chain(t') && RootOk(t', NoPending)
  {
    ChainFrame(t, t');
  }

  lemma LeafInsertKeepsTree(t: Tree, t': Tree, n: Node, key: Value, tids: seq<Tid>)
    requires WellFormed(t, NoPending)
    requires n.pageID in t.info && t.info[n.pageID].level == 0
    requires key.HasType(t.keyType) && Covers(t.info[n.pageID], key)
    requires LeafWith(t.nodes[n.pageID], n, key, tids)
    requires LeafOk(n, t.info[n.pageID], t.keyType)
    requires t' == t.(nodes := t.nodes[n.pageID := n], contents := t.contents[key := tids])
    ensures WellFormed(t', NoPending)
    ensures Tidy(t) ==> Tidy(t')
  {
    hide Chain, NodesOk, ChildrenOk, ParentsOk, LeafOk, Covers, Tidy;
    LeafInsertKeepsNodes(t, t', n, key, tids);
    LeafInsertKeepsChildren(t, t', n);
    LeafInsertKeepsParents(t, t', n);
    LeafInsertKeepsChain(t, t', n, key, tids);
    LeafInsertTidy(t, t', n, key, tids);
  }

  lemma LeafInsertTidy(t: Tree, t': Tree, n: Node, key: Value, tids: seq<Tid>)
    requires n.pageID in t.info && n.pageID in t.nodes && t.info[n.pageID].level == 0
    requires LeafWith(t.nodes[n.pageID], n, key, tids)
    requires t'.info == t.info && t'.nodes == t.nodes[n.pageID := n] && t'.height == t.height
    ensures Tidy(t) ==> Tidy(t')
  {
    if Tidy(t) {
      forall r | r in t'.info ensures r in t'.nodes && TidyNode(t', r) { assert TidyNode(t, r); }
    }
  }

  // ----- Splitting a leaf -----

  /** Leaf `n` kept its first `mid` keys as `low`; the new page `up` took the rest, and the
      leaf to the right of `n`, if any, now points back to `up`. `j` is the place of `n` in the chain. */
  ghost predicate LeafSplit(t: Tree, t': Tree, n: Node, mid: nat, j: nat, low: Node, up: Node) {
    && n.pageID in t.info && t.info[n.pageID].level == 0
    && n.pageID in t.nodes && n == t.nodes[n.pageID]
    && mid < |n.keys| == |n.values|
    && low == n.(keys := n.keys[..mid], values := n.values[..mid], rightSibPageID := t.next)
    && up == Node(t.next, true, n.parentPageID, n.pageID, n.rightSibPageID, n.keys[mid..], n.values[mid..], [])
    && t' == t.(nodes := t'.nodes, info := t'.info, leaves := t'.leaves, next := t.next + 1)
    && (forall x :: x in t.nodes ==> x in t'.nodes)
    && (forall x :: x in t.nodes && x != n.pageID && x != t.next ==>
          t'.nodes[x] == if x == n.rightSibPageID then t.nodes[x].(leftSibPageID := t.next) else t.nodes[x])
    && t'.nodes[n.pageID] == low && t.next in t'.nodes && t'.nodes[t.next] == up
    && (forall x :: x in t'.info <==> x in t.info || x == t.next)
    && (forall x :: x in t.info && x != n.pageID && x != t.next ==> t'.info[x] == t.info[x])
    && t'.info[n.pageID] == t.info[n.pageID].(hi := Some(Rank(n.keys[mid])))
    && t'.info[t.next] == Info(0, Some(Rank(n.keys[mid])), t.info[n.pageID].hi, 0)
    && j < |t.leaves| && t.leaves[j] == n.pageID
    && t'.leaves == t.leaves[..j + 1] + [t.next] + t.leaves[j + 1..]
  }

  ghost function SplitInfo(info: map<int, Info>, p: int, r: int, at: real): map<int, Info>
    requires p in info
  {
    info[p := info[p].(hi := Some(at))][r := Info(info[p].level, Some(at), info[p].hi, 0)]
  }

  lemma LeafSplitFromMaps(t: Tree, t': Tree, n: Node, mid: nat, j: nat, low: Node, up: Node)
    requires n.pageID in t.info && t.info[n.pageID].level == 0
    requires n.pageID in t.nodes && n == t.nodes[n.pageID] && n.pageID != t.next && t.next !in t.nodes
    requires mid < |n.keys| == |n.values|
    requires n.rightSibPageID != n.pageID && n.rightSibPageID != t.next
    requires n.rightSibPageID == NO_PAGE ==> NO_PAGE !in t.nodes
    requires n.rightSibPageID != NO_PAGE ==> n.rightSibPageID in t.nodes
    requires low == n.(keys := n.keys[..mid], values := n.values[..mid], rightSibPageID := t.next)
    requires up == Node(t.next, true, n.parentPageID, n.pageID, n.rightSibPageID, n.keys[mid..], n.values[mid..], [])
    requires t' == t.(nodes := t'.nodes, info := t'.info, leaves := t'.leaves, next := t.next + 1)
    requires var s := t.nodes[n.pageID := low][t.next := up];
      t'.nodes == if n.rightSibPageID != NO_PAGE then s[n.rightSibPageID := t.nodes[n.rightSibPageID].(leftSibPageID := t.next)] else s
    requires t'.info == SplitInfo(t.info, n.pageID, t.next, Rank(n.keys[mid]))
    requires j < |t.leaves| && t.leaves[j] == n.pageID
    requires t'.leaves == t.leaves[..j + 1] + [t.next] + t.leaves[j + 1..]
    ensures LeafSplit(t, t', n, mid, j, low, up)
  {
  }

  lemma LeafSplitNeighbour(t: Tree, n: Node, j: nat)
    requires Domain(t) && Chain(t)
    requires j < |t.leaves| && t.leaves[j] == n.pageID && n.pageID in t.nodes && n == t.nodes[n.pageID]
    ensures n.rightSibPageID == if j == |t.leaves| - 1 then NO_PAGE else t.leaves[j + 1]
    ensures n.rightSibPageID != n.pageID && n.rightSibPageID != t.next
    ensures n.rightSibPageID != NO_PAGE ==>
      n.rightSibPageID in t.nodes && n.rightSibPageID in t.info && t.info[n.rightSibPageID].level == 0
  {
    assert LinkOk(t, j);
    if j < |t.leaves| - 1 {
      assert LinkOk(t, j + 1);
    }
  }

  /** What the split of leaf `n` may rely on; `j` is its place in the chain. */
  lemma LeafSplitSetup(t: Tree, n: Node) returns (j: nat)
    requires WellFormed(t, NoPending)
    requires n.pageID in t.info && t.info[n.pageID].level == 0 && n.pageID in t.nodes && n == t.nodes[n.pageID]
    ensures j < |t.leaves| && t.leaves[j] == n.pageID
    ensures n.isLeaf && |n.values| == |n.keys| && forall i :: 0 <= i < |n.keys| ==> n.keys[i].HasType(t.keyType)
    ensures n.rightSibPageID != n.pageID && n.rightSibPageID != t.next
    ensures n.rightSibPageID != NO_PAGE ==> n.rightSibPageID in t.nodes && t.nodes[n.rightSibPageID].pageID == n.rightSibPageID
    ensures t.next !in t.info
  {
    assert NodeOk(t, n.pageID);
    j :| 0 <= j < |t.leaves| && t.leaves[j] == n.pageID;
    LeafSplitNeighbour(t, n, j);
  }

  lemma LowerHalfOk(n: Node, i: Info, i': Info, mid: nat, t: Type, m: Node)
    requires LeafOk(n, i, t) && mid < |n.keys|
    requires i' == i.(hi := Some(Rank(n.keys[mid])))
    requires m == n.(keys := n.keys[..mid], values := n.values[..mid], rightSibPageID := m.rightSibPageID)
    ensures LeafOk(m, i', t)
  {
  }

  lemma UpperHalfOk(n: Node, i: Info, i': Info, mid: nat, t: Type, m: Node)
    requires LeafOk(n, i, t) && mid < |n.keys|
    requires i' == Info(0, Some(Rank(n.keys[mid])), i.hi, 0)
    requires m.isLeaf && m.keys == n.keys[mid..] && m.values == n.values[mid..] && m.children == []
    ensures LeafOk(m, i', t)
  {
  }

  lemma LowerHalfExact(n: Node, i: Info, i': Info, contents: map<Value, seq<Tid>>, mid: nat, m: Node)
    requires |n.keys| == |n.values| && Exact(n, i, contents) && mid < |n.keys|
    requires Increasing(n.keys) && Covers(i, n.keys[mid])
    requires i' == i.(hi := Some(Rank(n.keys[mid])))
    requires m == n.(keys := n.keys[..mid], values := n.values[..mid], rightSibPageID := m.rightSibPageID)
    ensures Exact(m, i', contents)
  {
    forall k | k in contents && Covers(i', k) ensures k in m.keys {
      assert Covers(i, k);
      var z :| 0 <= z < |n.keys| && n.keys[z] == k;
      assert m.keys[z] == k;
    }
  }

  lemma UpperHalfExact(n: Node, i: Info, i': Info, contents: map<Value, seq<Tid>>, mid: nat, m: Node)
    requires |n.keys| == |n.values| && Exact(n, i, contents) && mid < |n.keys|
    requires Increasing(n.keys) && Covers(i, n.keys[mid])
    requires i' == Info(0, Some(Rank(n.keys[mid])), i.hi, 0)
    requires m.isLeaf && m.keys == n.keys[mid..] && m.values == n.values[mid..]
    ensures Exact(m, i', contents)
  {
    forall k | k in contents && Covers(i', k) ensures k in m.keys {
      assert Covers(i, k);
      var z :| 0 <= z < |n.keys| && n.keys[z] == k;
      assert m.keys[z - mid] == k;
    }
  }

  lemma LeafSplitNodes(t: Tree, t': Tree, n: Node, mid: nat, j: nat, low: Node, up: Node)
    requires Domain(t) && NodesOk(t) && Chain(t)
    requires LeafSplit(t, t', n, mid, j, low, up)
    ensures NodesOk(t')
  {
    LeafSplitNeighbour(t, n, j);
    var p, r := n.pageID, t.next;
    assert NodeOk(t, p);
    LowerHalfOk(n, t.info[p], t'.info[p], mid, t.keyType, low);
    LowerHalfExact(n, t.info[p], t'.info[p], t.contents, mid, low);
    UpperHalfOk(n, t.info[p], t'.info[r], mid, t.keyType, up);
    UpperHalfExact(n, t.info[p], t'.info[r], t.contents, mid, up);
    forall x | x in t'.info ensures x in t'.nodes && NodeOk(t', x) {
      if x != p && x != r {
        assert NodeOk(t, x);
      }
    }
  }

  lemma LeafSplitChildren(t: Tree, t': Tree, n: Node, mid: nat, j: nat, low: Node, up: Node)
    requires Domain(t) && Chain(t) && ChildrenOk(t, NoPending)
    requires LeafSplit(t, t', n, mid, j, low, up)
    ensures ChildrenOk(t', Pending(n.pageID, t.next))
  {
    LeafSplitNeighbour(t, n, j);
    var q := Pending(n.pageID, t.next);
    forall x, i | x in t'.info && x in t'.nodes && t'.info[x].level > 0 && 0 <= i < |t'.nodes[x].children|
      ensures ChildOk(t', q, x, i)
    {
      assert t'.nodes[x] == t.nodes[x];
      assert ChildOk(t, NoPending, x, i);
    }
  }

  lemma LeafSplitParents(t: Tree, t': Tree, n: Node, mid: nat, j: nat, low: Node, up: Node)
    requires Domain(t) && Chain(t) && ParentsOk(t, NoPending)
    requires LeafSplit(t, t', n, mid, j, low, up)
    ensures ParentsOk(t', Pending(n.pageID, t.next))
  {
    LeafSplitNeighbour(t, n, j);
    forall c | c in t'.info && c != t'.root && c != t.next ensures ParentOk(t', c) {
      assert ParentOk(t, c);
      assert t'.nodes[c].parentPageID == t.nodes[c].parentPageID;
      assert t'.nodes[t.nodes[c].parentPageID] == t.nodes[t.nodes[c].parentPageID];
    }
  }

  /** The place of the `i`-th leaf after an insertion behind place `j`. */
  lemma InsertedAt(a: seq<int>, b: seq<int>, j: nat, r: int)
    requires j < |a| && b == a[..j + 1] + [r] + a[j + 1..]
    ensures |b| == |a| + 1
    ensures forall i :: 0 <= i <= j ==> b[i] == a[i]
    ensures b[j + 1] == r
    ensures forall i :: j + 2 <= i < |b| ==> b[i] == a[i - 1]
  {
  }

  lemma LeafSplitLinks(t: Tree, t': Tree, n: Node, mid: nat, j: nat, low: Node, up: Node, i: nat)
    requires Domain(t) && Chain(t)
    requires LeafSplit(t, t', n, mid, j, low, up)
    requires i < |t'.leaves|
    ensures LinkOk(t', i)
  {
    hide Rank, Covers, Precedes;
    LeafSplitNeighbour(t, n, j);
    InsertedAt(t.leaves, t'.leaves, j, t.next);
    var i0 := if i <= j then i else i - 1;
    assert LinkOk(t, i0);
    assert i0 > 0 ==> LinkOk(t, i0 - 1) && t.leaves[i0 - 1] != t.leaves[i0];
    assert i0 != j ==> t.leaves[i0] != t.leaves[j];
    assert i0 > 0 && i0 - 1 != j ==> t.leaves[i0 - 1] != t.leaves[j];
    assert i0 != j + 1 && j + 1 < |t.leaves| ==> t.leaves[i0] != t.leaves[j + 1];
  }

  /** How the step changes the interval of the leaf at chain place `a`. */
  lemma LeafSplitInterval(t: Tree, t': Tree, n: Node, mid: nat, j: nat, low: Node, up: Node, a: nat)
    requires Domain(t) && Chain(t)
    requires LeafSplit(t, t', n, mid, j, low, up) && Covers(t.info[n.pageID], n.keys[mid])
    requires a < |t'.leaves|
    ensures t'.leaves[a] in t'.info
    ensures a != j + 1 ==>
      var p := t.leaves[if a <= j then a else a - 1];
      && t'.leaves[a] == p && p != t.next && p in t.info && t'.info[p].lo == t.info[p].lo
      && t'.info[p].hi == (if a == j then Some(Rank(n.keys[mid])) else t.info[p].hi)
    ensures a == j + 1 ==> t'.leaves[a] == t.next
  {
    InsertedAt(t.leaves, t'.leaves, j, t.next);
    var a0 := if a <= j then a else a - 1;
    assert LinkOk(t, a0);
    assert a0 < j ==> t.leaves[a0] != t.leaves[j];
    assert j < a0 ==> t.leaves[j] != t.leaves[a0];
  }

  lemma LeafSplitOrder(t: Tree, t': Tree, n: Node, mid: nat, j: nat, low: Node, up: Node, a: nat, b: nat)
    requires Domain(t) && Chain(t)
    requires LeafSplit(t, t', n, mid, j, low, up) && Covers(t.info[n.pageID], n.keys[mid])
    requires a < b < |t'.leaves|
    ensures t'.leaves[a] != t'.leaves[b] && Precedes(t', t'.leaves[a], t'.leaves[b])
  {
    LeafSplitInterval(t, t', n, mid, j, low, up, a);
    LeafSplitInterval(t, t', n, mid, j, low, up, b);
    var a0 := if a <= j then a else a - 1;
    var b0 := if b <= j then b else b - 1;
    assert a0 < b0 ==> t.leaves[a0] != t.leaves[b0] && Precedes(t, t.leaves[a0], t.leaves[b0]);
  }

  lemma LeafSplitChain(t: Tree, t': Tree, n: Node, mid: nat, j: nat, low: Node, up: Node)
    requires Domain(t) && Chain(t)
    requires LeafSplit(t, t', n, mid, j, low, up) && Covers(t.info[n.pageID], n.keys[mid])
    ensures Chain(t')
  {
    InsertedAt(t.leaves, t'.leaves, j, t.next);
    forall i | 0 <= i < |t'.leaves| ensures LinkOk(t', i) {
      LeafSplitLinks(t, t', n, mid, j, low, up, i);
    }
    forall a, b | 0 <= a < b < |t'.leaves|
      ensures t'.leaves[a] != t'.leaves[b] && Precedes(t', t'.leaves[a], t'.leaves[b])
    {
      LeafSplitOrder(t, t', n, mid, j, low, up, a, b);
    }
    forall p | p in t'.info && t'.info[p].level == 0 ensures p in t'.leaves {
      if p == t.next {
        assert t'.leaves[j + 1] == p;
      } else {
        var i :| 0 <= i < |t.leaves| && t.leaves[i] == p;
        assert t'.leaves[if i <= j then i else i + 1] == p;
      }
    }
  }

  lemma LeafSplitKeepsTree(t: Tree, t': Tree, n: Node, mid: nat, j: nat, low: Node, up: Node)
    requires WellFormed(t, NoPending)
    requires LeafSplit(t, t', n, mid, j, low, up)
    ensures WellFormed(t', Pending(n.pageID, t.next))
  {
    assert NodeOk(t, n.pageID);
    assert Covers(t.info[n.pageID], n.keys[mid]);
    LeafSplitNodes(t, t', n, mid, j, low, up);
    LeafSplitChain(t, t', n, mid, j, low, up);
    LeafSplitChildren(t, t', n, mid, j, low, up);
    LeafSplitParents(t, t', n, mid, j, low, up);
    LeafSplitRoot(t, t', n, mid, j, low, up);
  }

  lemma LeafSplitRoot(t: Tree, t': Tree, n: Node, mid: nat, j: nat, low: Node, up: Node)
    requires Domain(t) && Chain(t) && RootOk(t, NoPending)
    requires LeafSplit(t, t', n, mid, j, low, up) && Covers(t.info[n.pageID], n.keys[mid])
    ensures Domain(t') && RootOk(t', Pending(n.pageID, t.next)) && PendingOk(t', Pending(n.pageID, t.next))
  {
    LeafSplitDomain(t, t', n, mid, j, low, up);
    hide Domain, Chain, Rank;
  }

  lemma LeafSplitDomain(t: Tree, t': Tree, n: Node, mid: nat, j: nat, low: Node, up: Node)
    requires Domain(t) && Chain(t)
    requires LeafSplit(t, t', n, mid, j, low, up)
    ensures Domain(t') && t.next !in t.info && n.pageID != t.next
  {
    LeafSplitNeighbour(t, n, j);
    hide Chain, Rank;
  }

  // ----- Hanging the right half into the parent -----

  /** The parent `n` of `q.left` takes `key` and `q.right` just behind `q.left`. */
  ghost predicate Attached(t: Tree, t': Tree, q: Pending, key: Value, n: Node, n': Node) {
    && q.Pending? && q.left in t.info && q.right in t.info && q.left in t.nodes && q.right in t.nodes
    && n.pageID in t.nodes && n == t.nodes[n.pageID] && n.pageID == t.nodes[q.left].parentPageID
    && var i := t.info[q.left].pos;
    && i <= |n.keys| && i < |n.children|
    && key.HasType(t.keyType) && t.info[q.right].lo == Some(Rank(key))
    && n' == n.(keys := InsertKey(n.keys, i, key), children := n.children[..i + 1] + [q.right] + n.children[i + 1..])
    && t' == t.(nodes := t'.nodes, info := t'.info)
    && (forall x :: x in t.nodes ==> x in t'.nodes)
    && (forall x :: x in t.nodes && x != n.pageID && x != q.right ==> t'.nodes[x] == t.nodes[x])
    && t'.nodes[n.pageID] == n'
    && t'.nodes[q.right] == t.nodes[q.right].(parentPageID := n.pageID)
    && (forall x :: x in t'.info <==> x in t.info)
    && (forall x :: x in t.info && x != q.right ==>
          && x in t.nodes
          && t'.info[x] == if t.nodes[x].parentPageID == n.pageID && t.info[x].pos > i
                           then t.info[x].(pos := t.info[x].pos + 1) else t.info[x])
    && t'.info[q.right] == t.info[q.right].(pos := i + 1)
  }

  ghost function AttachInfo(t: Tree, q: Pending, p: int, i: nat): map<int, Info>
    requires q.Pending? && forall x :: x in t.info ==> x in t.nodes
  {
    map x | x in t.info ::
      if x == q.right then t.info[x].(pos := i + 1)
      else if t.nodes[x].parentPageID == p && t.info[x].pos > i then t.info[x].(pos := t.info[x].pos + 1)
      else t.info[x]
  }

  lemma AttachedFromMaps(t: Tree, t': Tree, q: Pending, key: Value, n: Node, n': Node)
    requires q.Pending? && q.left in t.info && q.right in t.info && q.left in t.nodes && q.right in t.nodes
    requires forall x :: x in t.info ==> x in t.nodes
    requires n.pageID in t.nodes && n == t.nodes[n.pageID] && n.pageID == t.nodes[q.left].parentPageID && n.pageID != q.right
    requires t.nodes[q.right].pageID == q.right
    requires t.info[q.left].pos <= |n.keys| && t.info[q.left].pos < |n.children|
    requires key.HasType(t.keyType) && t.info[q.right].lo == Some(Rank(key))
    requires var i := t.info[q.left].pos;
      n' == n.(keys := InsertKey(n.keys, i, key), children := n.children[..i + 1] + [q.right] + n.children[i + 1..])
    requires t' == t.(nodes := t'.nodes, info := t'.info)
    requires t'.nodes == t.nodes[q.right := t.nodes[q.right].(parentPageID := n.pageID)][n.pageID := n']
    requires t'.info == AttachInfo(t, q, n.pageID, t.info[q.left].pos)
    ensures Attached(t, t', q, key, n, n')
  {
  }

  lemma AttachFacts(t: Tree, t': Tree, q: Pending, key: Value, n: Node, n': Node)
    requires Domain(t) && ParentsOk(t, q) && ChildrenOk(t, q) && PendingOk(t, q) && q.Pending? && q.left != t.root
    requires Attached(t, t', q, key, n, n')
    ensures n.pageID in t.info && t.info[n.pageID].level == t.info[q.left].level + 1 && n.pageID != q.right && n.pageID != q.left
    ensures var i := t.info[q.left].pos; n.children[i] == q.left && ChildOk(t, q, n.pageID, i)
  {
    assert ParentOk(t, q.left);
  }

  lemma ParentOfLeft(t: Tree, q: Pending)
    requires Domain(t) && NodesOk(t) && ParentsOk(t, q) && PendingOk(t, q) && RootOk(t, q) && q.Pending?
    ensures q.left in t.nodes && (t.nodes[q.left].parentPageID == NO_PAGE <==> q.left == t.root)
    ensures q.left != t.root ==>
      var p := t.nodes[q.left].parentPageID;
      && p in t.info && p in t.nodes && p != q.left && p != q.right && t.nodes[p].pageID == p
      && t.info[p].level == t.info[q.left].level + 1 && InnerOk(t.nodes[p], t.info[p], t.keyType)
  {
    if q.left != t.root {
      assert ParentOk(t, q.left);
      assert NodeOk(t, t.nodes[q.left].parentPageID);
    }
  }

  /** What reporting a split to the parent may rely on. */
  lemma PendingSetup(t: Tree, q: Pending)
    requires WellFormed(t, q) && q.Pending?
    ensures q.left in t.info && q.left in t.nodes && t.nodes[q.left].pageID == q.left
    ensures q.right in t.info && q.right in t.nodes && t.nodes[q.right].pageID == q.right
    ensures q.left != q.right && t.next !in t.info && forall x :: x in t.info ==> x in t.nodes
    ensures t.root in t.info && t.info[t.root].level == t.height - 1 && t.height >= 1
    ensures t.info[q.left].level < t.height
    ensures t.nodes[q.left].parentPageID == NO_PAGE <==> q.left == t.root
    ensures q.left != t.root ==>
      var p := t.nodes[q.left].parentPageID;
      && p in t.info && p in t.nodes && p != q.left && p != q.right && t.nodes[p].pageID == p
      && t.info[p].level == t.info[q.left].level + 1 && t.info[p].level < t.height
      && Nondecreasing(t.nodes[p].keys) && Typed(t.nodes[p].keys, t.keyType)
  {
    ParentOfLeft(t, q);
  }

  lemma AttachSetup(t: Tree, q: Pending, key: Value, u: nat)
    requires WellFormed(t, q) && q.Pending? && q.left != t.root
    requires q.left in t.nodes && t.nodes[q.left].parentPageID in t.nodes
    requires q.right in t.info && t.info[q.right].lo == Some(Rank(key))
    requires var keys := t.nodes[t.nodes[q.left].parentPageID].keys;
      && u <= |keys|
      && (forall k :: 0 <= k < u ==> Rank(keys[k]) <= Rank(key))
      && (forall k :: u <= k < |keys| ==> Rank(keys[k]) > Rank(key))
    ensures q.left in t.info && u == t.info[q.left].pos
    ensures u < |t.nodes[t.nodes[q.left].parentPageID].children|
  {
    AttachSpot(t, q, key, u);
    assert ParentOk(t, q.left);
  }

  /** Where `upperBound` finds the place: right behind the split child. */
  lemma AttachSpot(t: Tree, q: Pending, key: Value, u: nat)
    requires Domain(t) && NodesOk(t) && ParentsOk(t, q) && ChildrenOk(t, q) && PendingOk(t, q) && RootOk(t, q)
    requires q.Pending? && q.left != t.root && t.info[q.right].lo == Some(Rank(key)) && q.left in t.nodes
    requires t.nodes[q.left].parentPageID in t.nodes
    requires var keys := t.nodes[t.nodes[q.left].parentPageID].keys;
      && u <= |keys|
      && (forall k :: 0 <= k < u ==> Rank(keys[k]) <= Rank(key))
      && (forall k :: u <= k < |keys| ==> Rank(keys[k]) > Rank(key))
    ensures u == t.info[q.left].pos
  {
    ParentOfLeft(t, q);
    var n := t.nodes[t.nodes[q.left].parentPageID];
    var i := t.info[q.left].pos;
    assert ParentOk(t, q.left);
    assert ChildOk(t, q, n.pageID, i);
    assert i < |n.keys| ==> Rank(key) < Rank(n.keys[i]);
    assert i > 0 ==> Rank(n.keys[i - 1]) <= Rank(key);
  }

  lemma InsertedKeys(keys: seq<Value>, i: nat, key: Value)
    requires i <= |keys|
    ensures var b := InsertKey(keys, i, key);
      && |b| == |keys| + 1
      && (forall j :: 0 <= j < i ==> b[j] == keys[j])
      && b[i] == key
      && (forall j :: i < j < |b| ==> b[j] == keys[j - 1])
  {
  }

  ghost predicate FitsBetween(keys: seq<Value>, i: nat, key: Value)
    requires i <= |keys|
  {
    && (i > 0 ==> Rank(keys[i - 1]) <= Rank(key))
    && (i < |keys| ==> Rank(key) < Rank(keys[i]))
  }

  lemma InsertKeepsOrder(keys: seq<Value>, i: nat, key: Value)
    requires i <= |keys| && Nondecreasing(keys) && FitsBetween(keys, i, key)
    ensures Nondecreasing(InsertKey(keys, i, key))
    ensures Increasing(keys) && (i > 0 ==> Rank(keys[i - 1]) < Rank(key)) ==> Increasing(InsertKey(keys, i, key))
  {
    hide Rank, InsertKey;
    InsertedKeys(keys, i, key);
    InsertedInOrder(keys, i, key);
  }

  /** The new key is not below those before it, and below those behind it. */
  lemma InsertedInOrder(keys: seq<Value>, i: nat, key: Value)
    requires i <= |keys| && Nondecreasing(keys) && FitsBetween(keys, i, key)
    ensures forall k :: 0 <= k < i ==> Rank(keys[k]) <= Rank(keys[i - 1]) && Rank(keys[k]) <= Rank(key)
    ensures forall k :: i <= k < |keys| ==> Rank(key) < Rank(keys[k])
  {
    hide Rank;
  }

  lemma InsertKeepsInner(n: Node, n': Node, at: Info, t: Type, i: nat, key: Value)
    requires InnerOk(n, at, t) && i <= |n.keys|
    requires !n'.isLeaf && n'.keys == InsertKey(n.keys, i, key) && |n'.children| == |n.children| + 1 && n'.values == []
    requires key.HasType(t) && AtOrAbove(at.lo, Rank(key)) && AtOrBelow(at.hi, Rank(key))
    requires Nondecreasing(n'.keys)
    ensures InnerOk(n', at, t)
  {
    InsertedKeys(n.keys, i, key);
  }

  lemma AttachPlace(t: Tree, t': Tree, q: Pending, key: Value, n: Node, n': Node)
    requires Domain(t) && NodesOk(t) && ParentsOk(t, q) && ChildrenOk(t, q) && PendingOk(t, q) && q.Pending? && q.left != t.root
    requires Attached(t, t', q, key, n, n')
    ensures n.pageID in t.info && InnerOk(n, t.info[n.pageID], t.keyType)
    ensures FitsBetween(n.keys, t.info[q.left].pos, key)
    ensures AtOrAbove(t.info[n.pageID].lo, Rank(key)) && AtOrBelow(t.info[n.pageID].hi, Rank(key))
    ensures (forall k :: 0 <= k < |n.keys| ==> Below(t.info[n.pageID].hi, Rank(n.keys[k]))) ==> Below(t.info[n.pageID].hi, Rank(key))
  {
    AttachFacts(t, t', q, key, n, n');
    assert NodeOk(t, n.pageID);
  }

  lemma AttachNode(t: Tree, t': Tree, q: Pending, key: Value, n: Node, n': Node)
    requires Domain(t) && NodesOk(t) && ParentsOk(t, q) && ChildrenOk(t, q) && PendingOk(t, q) && q.Pending? && q.left != t.root
    requires Attached(t, t', q, key, n, n')
    ensures n.pageID in t.info && InnerOk(n', t.info[n.pageID], t.keyType)
  {
    AttachPlace(t, t', q, key, n, n');
    InsertKeepsOrder(n.keys, t.info[q.left].pos, key);
    InsertKeepsInner(n, n', t.info[n.pageID], t.keyType, t.info[q.left].pos, key);
  }

  lemma AttachNodes(t: Tree, t': Tree, q: Pending, key: Value, n: Node, n': Node)
    requires Domain(t) && NodesOk(t) && ParentsOk(t, q) && ChildrenOk(t, q) && PendingOk(t, q) && q.Pending? && q.left != t.root
    requires Attached(t, t', q, key, n, n')
    ensures NodesOk(t')
  {
    AttachFacts(t, t', q, key, n, n');
    AttachNode(t, t', q, key, n, n');
    forall x | x in t'.info ensures x in t'.nodes && NodeOk(t', x) {
      AttachKeepsNode(t, t', q, key, n, n', x);
    }
  }

  lemma AttachKeepsNode(t: Tree, t': Tree, q: Pending, key: Value, n: Node, n': Node, x: int)
    requires NodesOk(t) && x in t.info && Attached(t, t', q, key, n, n')
    requires n.pageID in t.info && t.info[n.pageID].level > 0 && n.pageID != q.right && InnerOk(n', t.info[n.pageID], t.keyType)
    ensures x in t'.nodes && x in t'.info && NodeOk(t', x)
  {
    assert NodeOk(t, x);
    assert t'.info[x].level == t.info[x].level && t'.info[x].lo == t.info[x].lo && t'.info[x].hi == t.info[x].hi;
    if x != n.pageID {
      assert t'.nodes[x].keys == t.nodes[x].keys && t'.nodes[x].values == t.nodes[x].values && t'.nodes[x].children == t.nodes[x].children;
    }
  }

  lemma AttachChildren(t: Tree, t': Tree, q: Pending, key: Value, n: Node, n': Node)
    requires Domain(t) && ParentsOk(t, q) && ChildrenOk(t, q) && PendingOk(t, q) && q.Pending? && q.left != t.root
    requires Attached(t, t', q, key, n, n')
    ensures ChildrenOk(t', NoPending)
  {
    hide InsertKey, Rank, PendingOk, ParentsOk;
    AttachFacts(t, t', q, key, n, n');
    var i := t.info[q.left].pos;
    InsertedAt(n.children, n'.children, i, q.right);
    InsertedKeys(n.keys, i, key);
    forall x, m | x in t'.info && x in t'.nodes && t'.info[x].level > 0 && 0 <= m < |t'.nodes[x].children|
      ensures ChildOk(t', NoPending, x, m)
    {
      if x != n.pageID {
        AttachOther(t, t', q, key, n, n', x, m);
      } else if m == i + 1 {
        AttachedRight(t, t', q, key, n, n');
      } else {
        AttachChild(t, t', q, key, n, n', if m <= i then m else m - 1);
      }
    }
  }

  /** Children of other pages stay as they are. */
  lemma AttachOther(t: Tree, t': Tree, q: Pending, key: Value, n: Node, n': Node, x: int, m: nat)
    requires Domain(t) && ParentsOk(t, q) && ChildrenOk(t, q) && PendingOk(t, q) && q.Pending? && q.left != t.root
    requires Attached(t, t', q, key, n, n')
    requires x in t'.info && x in t'.nodes && t'.info[x].level > 0 && m < |t'.nodes[x].children| && x != n.pageID
    ensures ChildOk(t', NoPending, x, m)
  {
    hide InsertKey, Rank;
    AttachFacts(t, t', q, key, n, n');
    assert t'.nodes[x].children[m] == t.nodes[x].children[m];
    assert ChildOk(t, q, x, m);
  }

  lemma AttachedRight(t: Tree, t': Tree, q: Pending, key: Value, n: Node, n': Node)
    requires Domain(t) && ParentsOk(t, q) && ChildrenOk(t, q) && PendingOk(t, q) && q.Pending? && q.left != t.root
    requires Attached(t, t', q, key, n, n')
    ensures t.info[q.left].pos + 1 < |n'.children| && n.pageID in t'.info
    ensures ChildOk(t', NoPending, n.pageID, t.info[q.left].pos + 1)
  {
    AttachFacts(t, t', q, key, n, n');
    InsertedAt(n.children, n'.children, t.info[q.left].pos, q.right);
    InsertedKeys(n.keys, t.info[q.left].pos, key);
  }

  /** A child of the parent other than the new one moves from place `m` to place `k`. */
  lemma ChildMoves(t: Tree, t': Tree, q: Pending, p: int, m: nat, k: nat)
    requires p in t.info && p in t.nodes && p in t'.info && p in t'.nodes
    requires m < |t.nodes[p].children| && ChildOk(t, q, p, m) && k < |t'.nodes[p].children|
    requires t'.info[p].level == t.info[p].level && t'.info[p].lo == t.info[p].lo && t'.info[p].hi == t.info[p].hi
    requires |t'.nodes[p].children| == |t'.nodes[p].keys| + 1
    requires var c := t.nodes[p].children[m];
      && t'.nodes[p].children[k] == c && c in t'.info && c in t'.nodes
      && t'.nodes[c].parentPageID == p && t'.info[c] == t.info[c].(pos := k)
      && t'.info[c].lo == (if k == 0 then t.info[p].lo else Some(Rank(t'.nodes[p].keys[k - 1])))
      && t'.info[c].hi == (if k == |t'.nodes[p].keys| then t.info[p].hi else Some(Rank(t'.nodes[p].keys[k])))
    ensures ChildOk(t', NoPending, p, k)
  {
  }

  lemma AttachChild(t: Tree, t': Tree, q: Pending, key: Value, n: Node, n': Node, m: nat)
    requires Domain(t) && PendingOk(t, q) && ChildrenOk(t, q)
    requires Attached(t, t', q, key, n, n') && n.pageID in t.info && n.pageID != q.right
    requires t.info[n.pageID].level > 0
    requires n.children[t.info[q.left].pos] == q.left && ChildOk(t, q, n.pageID, t.info[q.left].pos)
    requires m < |n.children|
    ensures var k := if m <= t.info[q.left].pos then m else m + 1;
      k < |n'.children| && n.pageID in t'.info && ChildOk(t', NoPending, n.pageID, k)
  {
    hide InsertKey, Rank;
    var i := t.info[q.left].pos;
    InsertedAt(n.children, n'.children, i, q.right);
    InsertedKeys(n.keys, i, key);
    assert ChildOk(t, q, n.pageID, m);
    ChildMoves(t, t', q, n.pageID, m, if m <= i then m else m + 1);
  }

  lemma AttachParents(t: Tree, t': Tree, q: Pending, key: Value, n: Node, n': Node)
    requires Domain(t) && ParentsOk(t, q) && ChildrenOk(t, q) && PendingOk(t, q) && q.Pending? && q.left != t.root
    requires Attached(t, t', q, key, n, n')
    ensures ParentsOk(t', NoPending)
  {
    AttachFacts(t, t', q, key, n, n');
    var i := t.info[q.left].pos;
    InsertedAt(n.children, n'.children, i, q.right);
    forall c | c in t'.info && c != t'.root ensures ParentOk(t', c) {
      if c != q.right {
        assert ParentOk(t, c);
      }
    }
  }

  lemma AttachKeepsTree(t: Tree, t': Tree, q: Pending, key: Value, n: Node, n': Node)
    requires WellFormed(t, q) && q.Pending? && q.left != t.root
    requires Attached(t, t', q, key, n, n')
    ensures WellFormed(t', NoPending)
  {
    AttachFacts(t, t', q, key, n, n');
    AttachNodes(t, t', q, key, n, n');
    AttachChildren(t, t', q, key, n, n');
    AttachParents(t, t', q, key, n, n');
    AttachChainAndRoot(t, t', q, key, n, n');
  }

  lemma AttachChainAndRoot(t: Tree, t': Tree, q: Pending, key: Value, n: Node, n': Node)
    requires Domain(t) && Chain(t) && PendingOk(t, q) && RootOk(t, q) && q.Pending? && q.left != t.root
    requires Attached(t, t', q, key, n, n') && n.pageID in t.info && n.pageID != q.right && t.info[n.pageID].level > 0
    ensures Domain(t') && Chain(t') && RootOk(t', NoPending)
  {
    hide Chain;
    ChainFrame(t, t');
  }

  // ----- Splitting an internal page -----

  ghost predicate Moves(t: Tree, p: int, mid: nat, x: int)
    requires x in t.info && x in t.nodes
  {
    t.nodes[x].parentPageID == p && t.info[x].pos > mid
  }

  /** Internal page `n` kept `mid` keys as `low`; `keys[mid]` goes up, and the new page `up`
      took the rest together with the children behind it. */
  ghost predicate InnerSplit(t: Tree, t': Tree, n: Node, mid: nat, low: Node, up: Node) {
    && n.pageID in t.info && t.info[n.pageID].level > 0
    && n.pageID in t.nodes && n == t.nodes[n.pageID]
    && mid < |n.keys| && |n.children| == |n.keys| + 1
    && low == n.(keys := n.keys[..mid], children := n.children[..mid + 1], rightSibPageID := t.next)
    && up == Node(t.next, false, n.parentPageID, n.pageID, n.rightSibPageID, n.keys[mid + 1..], [], n.children[mid + 1..])
    && t' == t.(nodes := t'.nodes, info := t'.info, next := t.next + 1)
    && (forall x :: x in t.nodes ==> x in t'.nodes)
    && (forall x :: x in t.info && x != n.pageID && x != t.next ==>
          && x in t.nodes
          && t'.nodes[x] == if Moves(t, n.pageID, mid, x) then t.nodes[x].(parentPageID := t.next) else t.nodes[x])
    && t'.nodes[n.pageID] == low && t.next in t'.nodes && t'.nodes[t.next] == up
    && (forall x :: x in t'.info <==> x in t.info || x == t.next)
    && (forall x :: x in t.info && x != n.pageID && x != t.next ==>
          t'.info[x] == if Moves(t, n.pageID, mid, x) then t.info[x].(pos := t.info[x].pos - (mid + 1)) else t.info[x])
    && t'.info[n.pageID] == t.info[n.pageID].(hi := Some(Rank(n.keys[mid])))
    && t'.info[t.next] == Info(t.info[n.pageID].level, Some(Rank(n.keys[mid])), t.info[n.pageID].hi, 0)
  }

  ghost function InnerSplitInfo(t: Tree, p: int, mid: nat, r: int, at: real): map<int, Info>
    requires p in t.info && forall x :: x in t.info ==> x in t.nodes
  {
    (map x | x in t.info ::
      if x == p then t.info[x].(hi := Some(at))
      else if Moves(t, p, mid, x) then t.info[x].(pos := t.info[x].pos - (mid + 1))
      else t.info[x])[r := Info(t.info[p].level, Some(at), t.info[p].hi, 0)]
  }

  /** The `i`-th child of the new page is the one child that still has to move to it. */
  lemma MovedChild(t: Tree, n: Node, mid: nat, i: nat)
    requires Domain(t) && ChildrenOk(t, NoPending) && ParentsOk(t, NoPending) && RootOk(t, NoPending)
    requires n.pageID in t.info && n.pageID in t.nodes && n == t.nodes[n.pageID] && t.info[n.pageID].level > 0
    requires |n.children| == |n.keys| + 1 && mid < |n.keys| && i < |n.keys| - mid
    ensures var c := n.children[mid + 1..][i];
      && c in t.info && c in t.nodes && c != n.pageID && t.nodes[c].pageID == c
      && t.nodes[c].parentPageID == n.pageID && t.info[c].pos == mid + 1 + i
      && forall x :: x in t.info && t.nodes[x].parentPageID == n.pageID && t.info[x].pos == mid + 1 + i ==> x == c
  {
    assert ChildOk(t, NoPending, n.pageID, mid + 1 + i);
    forall x | x in t.info && t.nodes[x].parentPageID == n.pageID && t.info[x].pos == mid + 1 + i
      ensures x == n.children[mid + 1 + i]
    {
      assert x != t.root ==> ParentOk(t, x);
    }
  }

  lemma LowerInnerOk(n: Node, i: Info, i': Info, mid: nat, t: Type, m: Node)
    requires InnerOk(n, i, t) && mid < |n.keys|
    requires i' == i.(hi := Some(Rank(n.keys[mid])))
    requires !m.isLeaf && m.keys == n.keys[..mid] && m.children == n.children[..mid + 1] && m.values == []
    ensures InnerOk(m, i', t)
  {
  }

  lemma UpperInnerOk(n: Node, i: Info, i': Info, mid: nat, t: Type, m: Node)
    requires InnerOk(n, i, t) && mid < |n.keys|
    requires i' == Info(i.level, Some(Rank(n.keys[mid])), i.hi, 0)
    requires !m.isLeaf && m.keys == n.keys[mid + 1..] && m.children == n.children[mid + 1..] && m.values == []
    ensures InnerOk(m, i', t)
  {
  }

  /** What the split of internal page `n` may rely on. */
  lemma InnerSplitSetup(t: Tree, n: Node)
    requires WellFormed(t, NoPending)
    requires n.pageID in t.info && t.info[n.pageID].level > 0 && n.pageID in t.nodes && n == t.nodes[n.pageID]
    ensures forall x :: x in t.info ==> x in t.nodes
    ensures !n.isLeaf && |n.children| == |n.keys| + 1 && forall i :: 0 <= i < |n.keys| ==> n.keys[i].HasType(t.keyType)
    ensures t.next !in t.info
    ensures Domain(t) && ChildrenOk(t, NoPending) && ParentsOk(t, NoPending) && RootOk(t, NoPending)
  {
    assert NodeOk(t, n.pageID);
  }

  lemma InnerSplitFromMaps(t: Tree, t': Tree, n: Node, mid: nat, low: Node, up: Node)
    requires forall x :: x in t.info ==> x in t.nodes
    requires n.pageID in t.info && t.info[n.pageID].level > 0 && t.next !in t.nodes
    requires n.pageID in t.nodes && n == t.nodes[n.pageID]
    requires mid < |n.keys| && |n.children| == |n.keys| + 1
    requires low == n.(keys := n.keys[..mid], children := n.children[..mid + 1], rightSibPageID := t.next)
    requires up == Node(t.next, false, n.parentPageID, n.pageID, n.rightSibPageID, n.keys[mid + 1..], [], n.children[mid + 1..])
    requires t' == t.(nodes := t'.nodes, info := t'.info, next := t.next + 1)
    requires forall x :: x in t'.nodes <==> x in t.nodes || x == t.next
    requires t'.nodes[n.pageID] == low && t'.nodes[t.next] == up
    requires forall x :: x in t.info && x != n.pageID ==>
      t'.nodes[x] == if Moves(t, n.pageID, mid, x) then t.nodes[x].(parentPageID := t.next) else t.nodes[x]
    requires t'.info == InnerSplitInfo(t, n.pageID, mid, t.next, Rank(n.keys[mid]))
    ensures InnerSplit(t, t', n, mid, low, up)
  {
  }

  lemma InnerSplitNodes(t: Tree, t': Tree, n: Node, mid: nat, low: Node, up: Node)
    requires Domain(t) && NodesOk(t)
    requires InnerSplit(t, t', n, mid, low, up)
    ensures NodesOk(t')
  {
    var p := n.pageID;
    assert NodeOk(t, p);
    LowerInnerOk(n, t.info[p], t'.info[p], mid, t.keyType, low);
    UpperInnerOk(n, t.info[p], t'.info[t.next], mid, t.keyType, up);
    forall x | x in t'.info ensures x in t'.nodes && NodeOk(t', x) {
      if x != p && x != t.next {
        assert NodeOk(t, x);
      }
    }
  }

  lemma InnerSplitChild(t: Tree, t': Tree, n: Node, mid: nat, low: Node, up: Node, i: nat)
    requires Domain(t) && ChildrenOk(t, NoPending)
    requires InnerSplit(t, t', n, mid, low, up)
    requires i <= mid
    ensures ChildOk(t', Pending(n.pageID, t.next), n.pageID, i)
  {
    assert low.children[i] == n.children[i];
    assert ChildOk(t, NoPending, n.pageID, i);
  }

  lemma InnerSplitMoved(t: Tree, t': Tree, n: Node, mid: nat, low: Node, up: Node, i: nat)
    requires Domain(t) && ChildrenOk(t, NoPending)
    requires InnerSplit(t, t', n, mid, low, up)
    requires i < |n.keys| - mid
    ensures ChildOk(t', Pending(n.pageID, t.next), t.next, i)
  {
    assert up.children[i] == n.children[mid + 1 + i];
    assert ChildOk(t, NoPending, n.pageID, mid + 1 + i);
  }

  lemma InnerSplitChildren(t: Tree, t': Tree, n: Node, mid: nat, low: Node, up: Node)
    requires Domain(t) && ChildrenOk(t, NoPending)
    requires InnerSplit(t, t', n, mid, low, up)
    ensures ChildrenOk(t', Pending(n.pageID, t.next))
  {
    var q := Pending(n.pageID, t.next);
    forall x, i | x in t'.info && x in t'.nodes && t'.info[x].level > 0 && 0 <= i < |t'.nodes[x].children|
      ensures ChildOk(t', q, x, i)
    {
      if x == t.next {
        InnerSplitMoved(t, t', n, mid, low, up, i);
      } else if x == n.pageID {
        InnerSplitChild(t, t', n, mid, low, up, i);
      } else {
        assert t'.nodes[x].children[i] == t.nodes[x].children[i];
        assert ChildOk(t, NoPending, x, i);
      }
    }
  }

  lemma InnerSplitParent(t: Tree, t': Tree, n: Node, mid: nat, low: Node, up: Node, c: int)
    requires Domain(t) && InnerSplit(t, t', n, mid, low, up)
    requires c in t.info && ParentOk(t, c)
    ensures ParentOk(t', c)
  {
    var x := t.nodes[c].parentPageID;
    if x == n.pageID {
      if t.info[c].pos > mid {
        assert up.children[t.info[c].pos - (mid + 1)] == c;
      } else {
        assert low.children[t.info[c].pos] == c;
      }
    } else {
      assert t'.nodes[x].children == t.nodes[x].children;
    }
  }

  lemma InnerSplitParents(t: Tree, t': Tree, n: Node, mid: nat, low: Node, up: Node)
    requires Domain(t) && ParentsOk(t, NoPending)
    requires InnerSplit(t, t', n, mid, low, up)
    ensures ParentsOk(t', Pending(n.pageID, t.next))
  {
    forall c | c in t'.info && c != t'.root && c != t.next ensures ParentOk(t', c) {
      InnerSplitParent(t, t', n, mid, low, up, c);
    }
  }

  lemma InnerSplitRoot(t: Tree, t': Tree, n: Node, mid: nat, low: Node, up: Node)
    requires Domain(t) && NodesOk(t) && RootOk(t, NoPending)
    requires InnerSplit(t, t', n, mid, low, up) && Below(t.info[n.pageID].hi, Rank(n.keys[mid]))
    ensures Domain(t') && RootOk(t', Pending(n.pageID, t.next)) && PendingOk(t', Pending(n.pageID, t.next))
  {
    assert NodeOk(t, n.pageID);
  }

  lemma InnerSplitKeepsTree(t: Tree, t': Tree, n: Node, mid: nat, low: Node, up: Node)
    requires WellFormed(t, NoPending)
    requires InnerSplit(t, t', n, mid, low, up) && Below(t.info[n.pageID].hi, Rank(n.keys[mid]))
    ensures WellFormed(t', Pending(n.pageID, t.next))
  {
    InnerSplitNodes(t, t', n, mid, low, up);
    InnerSplitChildren(t, t', n, mid, low, up);
    InnerSplitParents(t, t', n, mid, low, up);
    InnerSplitRoot(t, t', n, mid, low, up);
    InnerSplitChain(t, t', n, mid, low, up);
  }

  lemma InnerSplitChain(t: Tree, t': Tree, n: Node, mid: nat, low: Node, up: Node)
    requires Domain(t) && Chain(t)
    requires InnerSplit(t, t', n, mid, low, up)
    ensures Chain(t')
  {
    hide Chain;
    ChainFrame(t, t');
  }

  // ----- A new root -----

  ghost predicate Rooted(t: Tree, t': Tree, q: Pending, key: Value) {
    && q.Pending? && q.left in t.info && q.right in t.info && q.left in t.nodes && q.right in t.nodes
    && q.left == t.root && key.HasType(t.keyType) && t.info[q.right].lo == Some(Rank(key))
    && t' == t.(nodes := t'.nodes, info := t'.info, root := t.next, height := t.height + 1, next := t.next + 1)
    && (forall x :: x in t.nodes ==> x in t'.nodes)
    && (forall x :: x in t.nodes && x != t.next ==>
          t'.nodes[x] == if x == q.left || x == q.right then t.nodes[x].(parentPageID := t.next) else t.nodes[x])
    && t.next in t'.nodes
    && t'.nodes[t.next] == Node(t.next, false, NO_PAGE, NO_PAGE, NO_PAGE, [key], [], [q.left, q.right])
    && (forall x :: x in t'.info <==> x in t.info || x == t.next)
    && (forall x :: x in t.info && x != t.next && x != q.left && x != q.right ==> t'.info[x] == t.info[x])
    && t'.info[q.left] == t.info[q.left].(pos := 0)
    && t'.info[q.right] == t.info[q.right].(pos := 1)
    && t'.info[t.next] == Info(t.info[t.root].level + 1, None, None, 0)
  }

  ghost function RootedInfo(t: Tree, q: Pending): map<int, Info>
    requires q.Pending? && q.left in t.info && q.right in t.info && t.root in t.info
  {
    t.info[q.left := t.info[q.left].(pos := 0)]
          [q.right := t.info[q.right].(pos := 1)]
          [t.next := Info(t.info[t.root].level + 1, None, None, 0)]
  }

  lemma RootedFromMaps(t: Tree, t': Tree, q: Pending, key: Value)
    requires q.Pending? && q.left in t.info && q.right in t.info && q.left in t.nodes && q.right in t.nodes && q.left != q.right
    requires t.nodes[q.left].pageID == q.left && t.nodes[q.right].pageID == q.right && t.next !in t.nodes && t.next !in t.info
    requires q.left == t.root && key.HasType(t.keyType) && t.info[q.right].lo == Some(Rank(key))
    requires t' == t.(nodes := t'.nodes, info := t'.info, root := t.next, height := t.height + 1, next := t.next + 1)
    requires t'.nodes == t.nodes[t.next := Node(t.next, false, NO_PAGE, NO_PAGE, NO_PAGE, [key], [], [q.left, q.right])]
                                [q.left := t.nodes[q.left].(parentPageID := t.next)]
                                [q.right := t.nodes[q.right].(parentPageID := t.next)]
    requires t'.info == RootedInfo(t, q)
    ensures Rooted(t, t', q, key)
  {
  }

  lemma RootedNodes(t: Tree, t': Tree, q: Pending, key: Value)
    requires Domain(t) && NodesOk(t) && Rooted(t, t', q, key)
    ensures NodesOk(t')
  {
    forall x | x in t'.info ensures x in t'.nodes && NodeOk(t', x) {
      if x != t.next {
        assert NodeOk(t, x);
      }
    }
  }

  lemma RootedChildren(t: Tree, t': Tree, q: Pending, key: Value)
    requires Domain(t) && ChildrenOk(t, q) && PendingOk(t, q) && RootOk(t, q) && Rooted(t, t', q, key)
    ensures ChildrenOk(t', NoPending)
  {
    forall x, i | x in t'.info && x in t'.nodes && t'.info[x].level > 0 && 0 <= i < |t'.nodes[x].children|
      ensures ChildOk(t', NoPending, x, i)
    {
      if x != t.next {
        assert t'.nodes[x].children[i] == t.nodes[x].children[i];
        assert ChildOk(t, q, x, i);
      }
    }
  }

  lemma RootedParents(t: Tree, t': Tree, q: Pending, key: Value)
    requires Domain(t) && ParentsOk(t, q) && PendingOk(t, q) && Rooted(t, t', q, key)
    ensures ParentsOk(t', NoPending)
  {
    forall c | c in t'.info && c != t'.root ensures ParentOk(t', c) {
      if c != q.left && c != q.right {
        assert ParentOk(t, c);
      }
    }
  }

  lemma RootedKeepsTree(t: Tree, t': Tree, q: Pending, key: Value)
    requires WellFormed(t, q) && Rooted(t, t', q, key)
    ensures WellFormed(t', NoPending)
  {
    RootedNodes(t, t', q, key);
    RootedChildren(t, t', q, key);
    RootedParents(t, t', q, key);
    RootedChainAndRoot(t, t', q, key);
  }

  lemma RootedChainAndRoot(t: Tree, t': Tree, q: Pending, key: Value)
    requires Domain(t) && Chain(t) && PendingOk(t, q) && RootOk(t, q) && Rooted(t, t', q, key)
    ensures Domain(t') && Chain(t') && RootOk(t', NoPending)
  {
    hide Chain;
    ChainFrame(t, t');
  }

  // ----- What stays tidy -----

  ghost predicate NoEmptyLeaf(t: Tree) {
    forall p :: p in t.info && t.info[p].level == 0 ==> p in t.nodes && |t.nodes[p].keys| >= 1
  }

  lemma LeafSplitTidy(t: Tree, t': Tree, n: Node, mid: nat, j: nat, low: Node, up: Node)
    requires Domain(t) && NodesOk(t) && Chain(t) && RootOk(t, NoPending)
    requires LeafSplit(t, t', n, mid, j, low, up) && Tidy(t) && mid >= 1
    ensures Tidy(t') && NoEmptyLeaf(t')
  {
    assert NodeOk(t, n.pageID);
    assert Covers(t.info[n.pageID], n.keys[0]) && Covers(t.info[n.pageID], n.keys[mid]);
    forall p | p in t'.info ensures p in t'.nodes && TidyNode(t', p) && (t'.info[p].level == 0 ==> |t'.nodes[p].keys| >= 1) {
      if p != t.next { assert TidyNode(t, p); }
    }
  }

  lemma AttachTidy(t: Tree, t': Tree, q: Pending, key: Value, n: Node, n': Node)
    requires Domain(t) && NodesOk(t) && ParentsOk(t, q) && ChildrenOk(t, q) && PendingOk(t, q) && q.Pending? && q.left != t.root
    requires Attached(t, t', q, key, n, n') && Tidy(t)
    ensures Tidy(t')
  {
    AttachFacts(t, t', q, key, n, n');
    AttachPlace(t, t', q, key, n, n');
    assert TidyNode(t, q.left) && TidyNode(t, n.pageID);
    AttachStrictKeys(t, t', q, key, n, n');
    forall p | p in t'.info ensures p in t'.nodes && TidyNode(t', p) {
      assert TidyNode(t, p);
    }
  }

  lemma AttachStrictKeys(t: Tree, t': Tree, q: Pending, key: Value, n: Node, n': Node)
    requires Attached(t, t', q, key, n, n') && PendingOk(t, q) && n.pageID in t.info && n.pageID != q.right
    requires Wider(t.info[q.left].lo, t.info[q.left].hi) && StrictKeys(n.keys, t.info[n.pageID])
    requires |n.children| == |n.keys| + 1 && ChildOk(t, q, n.pageID, t.info[q.left].pos) && n.children[t.info[q.left].pos] == q.left
    requires FitsBetween(n.keys, t.info[q.left].pos, key)
    ensures StrictKeys(n'.keys, t.info[n.pageID])
  {
    var i := t.info[q.left].pos;
    InsertKeepsOrder(n.keys, i, key);
    InsertedKeys(n.keys, i, key);
    assert i > 0 ==> Wider(t.info[n.pageID].lo, Some(Rank(n.keys[i - 1])));
    assert i < |n.keys| ==> Below(t.info[n.pageID].hi, Rank(n.keys[i]));
    forall k | 0 <= k < |n'.keys|
      ensures Wider(t.info[n.pageID].lo, Some(Rank(n'.keys[k]))) && Below(t.info[n.pageID].hi, Rank(n'.keys[k]))
    {
      assert k == i || n'.keys[k] == n.keys[if k < i then k else k - 1];
    }
  }

  lemma InnerSplitTidy(t: Tree, t': Tree, n: Node, mid: nat, low: Node, up: Node)
    requires Domain(t) && InnerSplit(t, t', n, mid, low, up) && Tidy(t)
    ensures Tidy(t')
  {
    assert TidyNode(t, n.pageID);
    forall p | p in t'.info ensures p in t'.nodes && TidyNode(t', p) {
      if p != n.pageID && p != t.next { assert TidyNode(t, p); }
    }
  }

  lemma RootedTidy(t: Tree, t': Tree, q: Pending, key: Value)
    requires Domain(t) && PendingOk(t, q) && Rooted(t, t', q, key) && Tidy(t) && NoEmptyLeaf(t)
    ensures Tidy(t')
  {
    forall p | p in t'.info ensures p in t'.nodes && TidyNode(t', p) {
      if p != t.next { assert TidyNode(t, p); }
    }
  }

  // ----- Each step as one statement -----

  /** Leaves of `a` are leaves of `b`, with the same entries. */
  ghost predicate LeavesKept(a: Tree, b: Tree) {
    forall p :: p in a.info && p in a.nodes && a.info[p].level == 0 ==>
      && p in b.info && p in b.nodes && b.info[p].level == 0
      && b.nodes[p].keys == a.nodes[p].keys && b.nodes[p].values == a.nodes[p].values
  }

  /** `b` is `a` with the pages rearranged and nothing lost. */
  ghost predicate Grown(a: Tree, b: Tree) {
    && b.keyType == a.keyType && b.contents == a.contents && b.leftmost == a.leftmost && b.leaves == a.leaves
    && b.next >= a.next && b.height >= a.height && (b.height == a.height ==> b.root == a.root)
    && LeavesKept(a, b)
    && (Tidy(a) && NoEmptyLeaf(a) ==> Tidy(b) && NoEmptyLeaf(b))
  }

  lemma GrownTransitive(a: Tree, b: Tree, c: Tree)
    requires Grown(a, b) && Grown(b, c)
    ensures Grown(a, c)
  {
  }

  lemma LeafSplitStep(t: Tree, t': Tree, n: Node, mid: nat, j: nat, low: Node, up: Node)
    requires WellFormed(t, NoPending)
    requires LeafSplit(t, t', n, mid, j, low, up)
    ensures WellFormed(t', Pending(n.pageID, t.next))
    ensures Tidy(t) && mid >= 1 ==> Tidy(t') && NoEmptyLeaf(t')
    ensures n.pageID in t'.info && t'.info[n.pageID].level == 0
    ensures t.next in t'.info && t'.info[t.next].lo == Some(Rank(n.keys[mid]))
  {
    LeafSplitKeepsTree(t, t', n, mid, j, low, up);
    if Tidy(t) && mid >= 1 {
      LeafSplitTidy(t, t', n, mid, j, low, up);
    }
  }

  lemma AttachStep(t: Tree, t': Tree, q: Pending, key: Value, n: Node, n': Node)
    requires WellFormed(t, q) && q.Pending? && q.left != t.root
    requires Attached(t, t', q, key, n, n')
    ensures WellFormed(t', NoPending) && Grown(t, t')
    ensures n.pageID in t'.info && t'.info[n.pageID].level == t.info[q.left].level + 1
  {
    AttachFacts(t, t', q, key, n, n');
    AttachKeepsTree(t, t', q, key, n, n');
    AttachGrows(t, t', q, key, n, n');
  }

  lemma AttachGrows(t: Tree, t': Tree, q: Pending, key: Value, n: Node, n': Node)
    requires Domain(t) && NodesOk(t) && ParentsOk(t, q) && ChildrenOk(t, q) && PendingOk(t, q) && q.Pending? && q.left != t.root
    requires Attached(t, t', q, key, n, n')
    ensures Grown(t, t')
  {
    AttachFacts(t, t', q, key, n, n');
    if Tidy(t) {
      AttachTidy(t, t', q, key, n, n');
    }
  }

  lemma InnerSplitStep(t: Tree, t': Tree, n: Node, mid: nat, low: Node, up: Node)
    requires WellFormed(t, NoPending)
    requires InnerSplit(t, t', n, mid, low, up) && Below(t.info[n.pageID].hi, Rank(n.keys[mid]))
    ensures WellFormed(t', Pending(n.pageID, t.next)) && Grown(t, t')
  {
    InnerSplitKeepsTree(t, t', n, mid, low, up);
    if Tidy(t) {
      InnerSplitTidy(t, t', n, mid, low, up);
    }
  }

  lemma RootedStep(t: Tree, t': Tree, q: Pending, key: Value)
    requires WellFormed(t, q) && Rooted(t, t', q, key)
    ensures WellFormed(t', NoPending) && Grown(t, t')
  {
    RootedKeepsTree(t, t', q, key);
    if Tidy(t) && NoEmptyLeaf(t) {
      RootedTidy(t, t', q, key);
    }
  }

  /** Adding an entry to the leaf in charge of it, before anything is split. */
  lemma LeafInsertStep(t: Tree, t': Tree, m: Node, n: Node, i: nat, key: Value, tid: Tid)
    requires WellFormed(t, NoPending)
    requires m.pageID in t.info && t.info[m.pageID].level == 0 && m.pageID in t.nodes && m == t.nodes[m.pageID]
    requires key.HasType(t.keyType) && Covers(t.info[m.pageID], key)
    requires EntryAdded(m, n, i, key, tid) && Increasing(n.keys)
    requires t' == t.(nodes := t.nodes[m.pageID := n],
                      contents := t.contents[key := (if key in t.contents then t.contents[key] else []) + [tid]])
    ensures WellFormed(t', NoPending) && (Tidy(t) ==> Tidy(t'))
    ensures n.pageID == m.pageID && key in n.keys
  {
    assert NodeOk(t, m.pageID);
    EntryAddedOk(m, n, i, key, tid, t.info[m.pageID], t.keyType);
    EntryAddedIsLeafWith(m, n, i, key, tid, t.info[m.pageID], t.contents);
    LeafInsertKeepsTree(t, t', n, key, (if key in t.contents then t.contents[key] else []) + [tid]);
  }

  /** The leaf in charge of `key` holds no other key. */
  ghost predicate AloneInLeaf(t: Tree, key: Value) {
    exists p :: p in t.info && p in t.nodes && t.info[p].level == 0 && Covers(t.info[p], key)
      && forall i :: 0 <= i < |t.nodes[p].keys| ==> t.nodes[p].keys[i] == key
  }

  lemma AloneSetup(t: Tree, m: Node, n: Node, i: nat, key: Value, tid: Tid)
    requires Chain(t) && NodesOk(t)
    requires m.pageID in t.info && t.info[m.pageID].level == 0 && m.pageID in t.nodes && m == t.nodes[m.pageID]
    requires Covers(t.info[m.pageID], key)
    requires EntryAdded(m, n, i, key, tid) && Increasing(n.keys)
    ensures |n.keys| >= 1 && (|n.keys| == 1 <==> AloneInLeaf(t, key))
    ensures |n.keys| == 1 ==> NodeSize(n) == SingleKeySize(key, (if key in t.contents then |t.contents[key]| else 0) + 1)
  {
    assert NodeOk(t, m.pageID);
    if AloneInLeaf(t, key) {
      var p :| p in t.info && p in t.nodes && t.info[p].level == 0 && Covers(t.info[p], key)
        && forall i :: 0 <= i < |t.nodes[p].keys| ==> t.nodes[p].keys[i] == key;
      LeavesAreDisjoint(t, p, m.pageID, key);
      TwoKeysDiffer(m.keys, key);
      assert |m.keys| == 1 ==> m.keys[0] in m.keys;
    }
    if |n.keys| == 1 {
      SingleKeyLeaf(n);
      assert n.keys[0] == key;
      assert forall k :: 0 <= k < |t.nodes[m.pageID].keys| ==> t.nodes[m.pageID].keys[k] == key;
    }
  }

  lemma TwoKeysDiffer(keys: seq<Value>, key: Value)
    requires Increasing(keys)
    ensures |keys| >= 2 ==> exists i :: 0 <= i < |keys| && keys[i] != key
  {
    if |keys| >= 2 {
      assert Rank(keys[0]) < Rank(keys[1]);
    }
  }
}
