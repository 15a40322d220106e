/** The page graph of the disk B+tree and the invariant that every insert keeps. */
module BTreeShape {
  import opened Values
  import opened Pages

  /** A decoded B+tree page. Leaves use `values`, internal nodes use `children`. */
  datatype Node = Node(
    pageID: int, isLeaf: bool,
    parentPageID: int, leftSibPageID: int, rightSibPageID: int,
    keys: seq<Value>, values: seq<seq<Tid>>, children: seq<int>)

  /** Where a page sits: its height above the leaves, the key interval [lo, hi) it is
      responsible for (as ranks, absent meaning unbounded), and its index among its siblings. */
  datatype Info = Info(level: nat, lo: Option<real>, hi: Option<real>, pos: nat)

  /** One state of the index: the node pages, the metadata, and the tree they encode. */
  datatype Tree = Tree(
    keyType: Type, nodes: map<int, Node>,
    root: int, height: int, leftmost: int, next: int,
    info: map<int, Info>, leaves: seq<int>, contents: map<Value, seq<Tid>>)

  /** During an insert, a page that was just split is responsible for less than its slot in
      its parent says; `right` takes the rest and hangs in no parent yet. */
  datatype Pending = NoPending | Pending(left: int, right: int)

  ghost predicate AtOrAbove(lo: Option<real>, r: real) { lo.Some? ==> lo.value <= r }
  ghost predicate AtOrBelow(hi: Option<real>, r: real) { hi.Some? ==> r <= hi.value }
  ghost predicate Below(hi: Option<real>, r: real) { hi.Some? ==> r < hi.value }

  ghost predicate Covers(i: Info, k: Value) {
    AtOrAbove(i.lo, Rank(k)) && Below(i.hi, Rank(k))
  }

  ghost predicate Increasing(keys: seq<Value>) {
    forall i, j :: 0 <= i < j < |keys| ==> Rank(keys[i]) < Rank(keys[j])
  }

  ghost predicate Nondecreasing(keys: seq<Value>) {
    forall i, j :: 0 <= i < j < |keys| ==> Rank(keys[i]) <= Rank(keys[j])
  }

  ghost predicate Typed(keys: seq<Value>, t: Type) {
    forall i :: 0 <= i < |keys| ==> keys[i].HasType(t)
  }

  // ----- What one page must satisfy -----

  ghost predicate InnerOk(n: Node, i: Info, t: Type) {
    && !n.isLeaf && |n.children| == |n.keys| + 1 && n.values == []
    && Nondecreasing(n.keys) && Typed(n.keys, t)
    && forall j :: 0 <= j < |n.keys| ==> AtOrAbove(i.lo, Rank(n.keys[j])) && AtOrBelow(i.hi, Rank(n.keys[j]))
  }

  ghost predicate LeafOk(n: Node, i: Info, t: Type) {
    && n.isLeaf && |n.values| == |n.keys| && n.children == []
    && Increasing(n.keys) && Typed(n.keys, t)
    && forall j :: 0 <= j < |n.keys| ==> Covers(i, n.keys[j])
  }

  /** The leaf holds exactly the part of `contents` it is responsible for. */
  ghost predicate Exact(n: Node, i: Info, contents: map<Value, seq<Tid>>)
    requires |n.values| == |n.keys|
  {
    && (forall j :: 0 <= j < |n.keys| ==> n.keys[j] in contents && contents[n.keys[j]] == n.values[j])
    && (forall k :: k in contents && Covers(i, k) ==> k in n.keys)
  }

  ghost predicate NodeOk(t: Tree, p: int)
    requires p in t.info && p in t.nodes
  {
    if t.info[p].level == 0
    then LeafOk(t.nodes[p], t.info[p], t.keyType) && Exact(t.nodes[p], t.info[p], t.contents)
    else InnerOk(t.nodes[p], t.info[p], t.keyType)
  }

  // ----- How pages are linked -----

  ghost predicate Domain(t: Tree) {
    && (forall p :: p in t.info ==> p in t.nodes && 1 <= p < t.next && t.nodes[p].pageID == p)
    && (forall p :: p in t.info ==> NO_PAGE <= t.nodes[p].leftSibPageID < t.next && NO_PAGE <= t.nodes[p].rightSibPageID < t.next)
    && (forall k :: k in t.contents ==> k.HasType(t.keyType))
  }

  /** The upper end a parent believes in: a pending right half still counts as its left half. */
  ghost function SlotHi(t: Tree, q: Pending, c: int): Option<real>
    requires c in t.info
  {
    if q.Pending? && c == q.left && q.right in t.info then t.info[q.right].hi else t.info[c].hi
  }

  ghost predicate ChildOk(t: Tree, q: Pending, p: int, i: int)
    requires p in t.info && p in t.nodes
    requires 0 <= i < |t.nodes[p].children|
  {
    var c := t.nodes[p].children[i];
    && c in t.info && c in t.nodes && |t.nodes[p].children| == |t.nodes[p].keys| + 1
    && !(q.Pending? && c == q.right)
    && t.info[c].level == t.info[p].level - 1
    && t.nodes[c].parentPageID == p
    && t.info[c].pos == i
    && t.info[c].lo == (if i == 0 then t.info[p].lo else Some(Rank(t.nodes[p].keys[i - 1])))
    && SlotHi(t, q, c) == (if i == |t.nodes[p].keys| then t.info[p].hi else Some(Rank(t.nodes[p].keys[i])))
  }

  ghost predicate ParentOk(t: Tree, c: int)
    requires c in t.info
  {
    && c in t.nodes
    && var p := t.nodes[c].parentPageID;
    && p in t.info && p in t.nodes
    && t.info[p].level == t.info[c].level + 1
    && t.info[c].pos < |t.nodes[p].children|
    && t.nodes[p].children[t.info[c].pos] == c
  }

  ghost predicate RootOk(t: Tree, q: Pending) {
    && t.root in t.info && t.root in t.nodes
    && t.info[t.root].level == t.height - 1
    && t.nodes[t.root].parentPageID == NO_PAGE
    && t.info[t.root].lo == None
    && SlotHi(t, q, t.root) == None
    && (forall p :: p in t.info ==>
          t.info[p].level < t.height && (t.info[p].level == t.height - 1 ==> p == t.root || (q.Pending? && p == q.right)))
  }

  ghost predicate Precedes(t: Tree, a: int, b: int) {
    && a in t.info && b in t.info
    && t.info[a].hi.Some? && t.info[b].lo.Some? && t.info[a].hi.value <= t.info[b].lo.value
  }

  ghost predicate LinkOk(t: Tree, i: int)
    requires 0 <= i < |t.leaves|
  {
    var p := t.leaves[i];
    && p in t.info && p in t.nodes
    && t.info[p].level == 0
    && t.nodes[p].leftSibPageID == (if i == 0 then NO_PAGE else t.leaves[i - 1])
    && t.nodes[p].rightSibPageID == (if i == |t.leaves| - 1 then NO_PAGE else t.leaves[i + 1])
    && (i == 0 ==> t.info[p].lo == None)
    && (i == |t.leaves| - 1 ==> t.info[p].hi == None)
    && (i > 0 ==> t.leaves[i - 1] in t.info && t.info[t.leaves[i - 1]].hi == t.info[p].lo)
  }

  /** The sibling chain visits every leaf once, in key order, and leaves no gap. */
  ghost predicate Chain(t: Tree) {
    && |t.leaves| >= 1 && t.leaves[0] == t.leftmost
    && (forall i :: 0 <= i < |t.leaves| ==> LinkOk(t, i))
    && (forall i, j :: 0 <= i < j < |t.leaves| ==>
          t.leaves[i] != t.leaves[j] && Precedes(t, t.leaves[i], t.leaves[j]))
    && (forall p :: p in t.info && t.info[p].level == 0 ==> p in t.leaves)
  }

  ghost predicate PendingOk(t: Tree, q: Pending) {
    q.Pending? ==>
      && q.left in t.info && q.right in t.info && q.left != q.right && q.right != t.root
      && t.info[q.left].level == t.info[q.right].level
      && t.info[q.left].hi.Some? && t.info[q.left].hi == t.info[q.right].lo
      && AtOrAbove(t.info[q.left].lo, t.info[q.right].lo.value)
      && Below(t.info[q.right].hi, t.info[q.right].lo.value)
  }

  ghost predicate NodesOk(t: Tree) {
    forall p :: p in t.info ==> p in t.nodes && NodeOk(t, p)
  }

  ghost predicate ChildrenOk(t: Tree, q: Pending) {
    forall p, i {:trigger t.nodes[p].children[i]} {:trigger ChildOk(t, q, p, i)} ::
      p in t.info && p in t.nodes && t.info[p].level > 0 && 0 <= i < |t.nodes[p].children| ==> ChildOk(t, q, p, i)
  }

  ghost predicate ParentsOk(t: Tree, q: Pending) {
    forall c :: c in t.info && c != t.root && !(q.Pending? && c == q.right) ==> ParentOk(t, c)
  }

  /** The whole-tree invariant, with possibly one split still to be reported to a parent. */
  ghost predicate WellFormed(t: Tree, q: Pending) {
    && Domain(t) && NodesOk(t) && Chain(t)
    && PendingOk(t, q) && RootOk(t, q) && ChildrenOk(t, q) && ParentsOk(t, q)
  }

  ghost predicate Wider(lo: Option<real>, hi: Option<real>) {
    lo.Some? && hi.Some? ==> lo.value < hi.value
  }

  /** The separators of a page increase and lie strictly inside its interval. */
  ghost predicate StrictKeys(keys: seq<Value>, i: Info) {
    && Increasing(keys)
    && forall j :: 0 <= j < |keys| ==> Wider(i.lo, Some(Rank(keys[j]))) && Below(i.hi, Rank(keys[j]))
  }

  /** No page is responsible for an empty interval: separators strictly increase, and only a
      root leaf may be empty. A split that leaves a one-key leaf empty is what breaks it. */
  ghost predicate TidyNode(t: Tree, p: int)
    requires p in t.info && p in t.nodes
  {
    && Wider(t.info[p].lo, t.info[p].hi)
    && (t.info[p].level == 0 ==> |t.nodes[p].keys| >= 1 || t.height == 1)
    && (t.info[p].level > 0 ==> StrictKeys(t.nodes[p].keys, t.info[p]))
  }

  ghost predicate Tidy(t: Tree) {
    forall p :: p in t.info ==> p in t.nodes && TidyNode(t, p)
  }

  // ----- Consequences used by readers -----

  /** Two leaves never share a key. */
  lemma LeavesAreDisjoint(t: Tree, p: int, q: int, k: Value)
    requires Chain(t)
    requires p in t.info && q in t.info && t.info[p].level == 0 && t.info[q].level == 0
    requires Covers(t.info[p], k) && Covers(t.info[q], k)
    ensures p == q
  {
    var i :| 0 <= i < |t.leaves| && t.leaves[i] == p;
    var j :| 0 <= j < |t.leaves| && t.leaves[j] == q;
    assert i < j ==> Precedes(t, t.leaves[i], t.leaves[j]);
    assert j < i ==> Precedes(t, t.leaves[j], t.leaves[i]);
  }
}
