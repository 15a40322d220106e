/** Which separators can repeat, and why an insert still finds the right place for every new page. */
module BTreeSeparators {
  import opened Values
  import opened Pages
  import opened KeyCodec
  import opened BTreeShape
  import opened BTreePages
  import opened BTreeSteps
  import opened BTreeCascade

  /** An internal page of keys up to this size is split only when it has five keys or more:
      34 + 4 * 2032 + 5 * 4 = 8182 bytes. Strings of up to 2030 bytes, and all INT64 keys, are short. */
  const SHORT_KEY: nat := 2032

  ghost predicate AllShort(keys: seq<Value>) {
    forall i :: 0 <= i < |keys| ==> KeySize(keys[i]) <= SHORT_KEY
  }

  /** However a separator below the end of its interval is added to this page (a short one, if only short
      ones occur): if the page is then split, the key passed on lies below that end as well. */
  ghost predicate SplitsInside(a: Above, t: Type, short: bool) {
    && (short ==> AllShort(a.keys))
    && forall key: Value ::
         key.HasType(t) && (short ==> KeySize(key) <= SHORT_KEY) && Below(a.hi, Rank(key))
         && InnerSize(WithSeparator(a.keys, key)) > PAGE_CAPACITY ==>
           Below(a.hi, Rank(Middle(WithSeparator(a.keys, key))))
  }

  /** A page ends no later than its parent. */
  lemma ParentInterval(t: Tree, p: int)
    requires WellFormed(t, NoPending) && Climbs(t, p)
    ensures var r := t.nodes[p].parentPageID; Typed(t.nodes[r].keys, t.keyType) && t.info[r].level > 0
    ensures forall x :: Below(t.info[p].hi, x) ==> Below(t.info[t.nodes[p].parentPageID].hi, x)
  {
    var r := t.nodes[p].parentPageID;
    assert ParentOk(t, p) && NodeOk(t, r);
    assert ChildOk(t, NoPending, r, t.info[p].pos);
  }

  lemma PassedOn(a: Above, t: Type, key: Value, short: bool)
    requires SplitsInside(a, t, short) && Typed(a.keys, t) && key.HasType(t) && Below(a.hi, Rank(key))
    requires (short ==> KeySize(key) <= SHORT_KEY) && InnerSize(WithSeparator(a.keys, key)) > PAGE_CAPACITY
    ensures var next := Middle(WithSeparator(a.keys, key));
      next.HasType(t) && Below(a.hi, Rank(next)) && (short ==> KeySize(next) <= SHORT_KEY)
  {
    hide InnerSize, KeySize, Rank;
    InsertedKeys(a.keys, UpperPlace(a.keys, key), key);
  }

  lemma {:induction false} SeparatesUpwards(t: Tree, p: int, key: Value, short: bool)
    requires WellFormed(t, NoPending) && p in t.info && key.HasType(t.keyType) && Below(t.info[p].hi, Rank(key))
    requires short ==> KeySize(key) <= SHORT_KEY
    requires forall r :: r in t.info && r in t.nodes && t.info[r].level > 0 ==> SplitsInside(Above(t.nodes[r].keys, t.info[r].hi), t.keyType, short)
    ensures CascadeSeparates(Ancestors(t, p), key)
    decreases t.height - t.info[p].level
  {
    if Climbs(t, p) {
      var r := t.nodes[p].parentPageID;
      ParentInterval(t, p);
      hide WellFormed, InnerSize, KeySize, Rank, SplitsInside, Middle, WithSeparator;
      var a := Above(t.nodes[r].keys, t.info[r].hi);
      assert Ancestors(t, p)[0] == a && Ancestors(t, p)[1..] == Ancestors(t, r);
      if InnerSize(WithSeparator(a.keys, key)) > PAGE_CAPACITY {
        PassedOn(a, t.keyType, key, short);
        SeparatesUpwards(t, r, Middle(WithSeparator(a.keys, key)), short);
      }
    }
  }

  lemma GrownLeafSource(t: Tree, key: Value)
    requires Chain(t) && NodesOk(t) && key.HasType(t.keyType)
    ensures forall i :: 0 <= i < |GrownLeaf(t, key).keys| ==>
      GrownLeaf(t, key).keys[i] == key || GrownLeaf(t, key).keys[i] in t.nodes[LeafFor(t, key)].keys
  {
    var m := t.nodes[LeafFor(t, key)];
    assert NodeOk(t, LeafFor(t, key));
    InsertedKeys(m.keys, LowerPlace(m.keys, key), key);
  }

  lemma InsertSeparatesIn(t: Tree, key: Value, short: bool)
    requires WellFormed(t, NoPending) && key.HasType(t.keyType)
    requires short ==> KeySize(key) <= SHORT_KEY && AllShort(t.nodes[LeafFor(t, key)].keys)
    requires forall r :: r in t.info && r in t.nodes && t.info[r].level > 0 ==> SplitsInside(Above(t.nodes[r].keys, t.info[r].hi), t.keyType, short)
    ensures InsertSeparates(t, key)
  {
    GrownLeafKeys(t, key);
    GrownLeafSource(t, key);
    SeparatesUpwards(t, LeafFor(t, key), Middle(GrownLeaf(t, key).keys), short);
  }

  lemma StrictSplitsInside(keys: seq<Value>, i: Info, t: Type, short: bool)
    requires StrictKeys(keys, i) && (short ==> AllShort(keys))
    ensures SplitsInside(Above(keys, i.hi), t, short)
  {
    forall key: Value | key.HasType(t) && Below(i.hi, Rank(key)) ensures Below(i.hi, Rank(Middle(WithSeparator(keys, key)))) {
      InsertedKeys(keys, UpperPlace(keys, key), key);
    }
  }

  /** While no leaf was left empty, every insert separates. */
  lemma TidySeparates(t: Tree, key: Value)
    requires WellFormed(t, NoPending) && Tidy(t) && key.HasType(t.keyType)
    ensures InsertSeparates(t, key)
  {
    forall r | r in t.info && r in t.nodes && t.info[r].level > 0
      ensures SplitsInside(Above(t.nodes[r].keys, t.info[r].hi), t.keyType, false)
    {
      assert TidyNode(t, r);
      StrictSplitsInside(t.nodes[r].keys, t.info[r], t.keyType, false);
    }
    InsertSeparatesIn(t, key, false);
  }

  // ----- Trees with leaves that were left empty -----

  /** The leaves that hold nothing and end at `at`. Each comes from a split in which one key alone, of
      rank `at`, had overflowed its leaf. */
  ghost function Empties(t: Tree, at: real): set<int> {
    set p | p in t.info && p in t.nodes && t.info[p].level == 0 && t.nodes[p].keys == [] && t.info[p].hi == Some(at)
  }

  /** The `m`-th TID before the last one, counting from one, has made the leaf of `key` overflow. */
  ghost predicate Overflowed(t: Tree, key: Value, m: nat) {
    key in t.contents && |t.contents[key]| + 1 >= m && SingleKeySize(key, |t.contents[key]| + 1 - m) > PAGE_CAPACITY
  }

  /** A key leaves as many leaves empty as it had TIDs too many: two at most. */
  ghost predicate EmptiesOk(t: Tree, at: real) {
    && |Empties(t, at)| <= 2
    && (Empties(t, at) != {} ==> exists k :: Rank(k) == at && Overflowed(t, k, |Empties(t, at)|))
  }

  ghost predicate NearNode(t: Tree, p: int)
    requires p in t.info && p in t.nodes
  {
    var i, keys := t.info[p], t.nodes[p].keys;
    && (i.level == 0 && keys == [] && i.hi == None ==> |t.leaves| == 1)
    && (i.level > 0 ==> Wider(i.lo, i.hi))
    && (i.level > 1 ==> StrictKeys(keys, i))
    && AllShort(keys)
  }

  /** Only leaves can be responsible for nothing, and only where one key alone has overflowed its leaf;
      so separators repeat just above the leaves, each at most twice. */
  ghost predicate Near(t: Tree) {
    && (forall p :: p in t.info ==> p in t.nodes && NearNode(t, p))
    && forall at: real :: EmptiesOk(t, at)
  }

  /** The leaf of `key` may be split once more although `key` is alone in it. */
  ghost predicate Slack(t: Tree, key: Value) {
    Empties(t, Rank(key)) != {} ==>
      && key in t.contents && |t.contents[key]| >= |Empties(t, Rank(key))|
      && SingleKeySize(key, |t.contents[key]| - |Empties(t, Rank(key))|) > PAGE_CAPACITY
  }

  /** What `n` holds besides `key` was in the leaf before. */
  ghost predicate KeysFrom(m: Node, n: Node, key: Value) {
    forall i :: 0 <= i < |n.keys| ==> n.keys[i] == key || n.keys[i] in m.keys
  }

  lemma FewerEmpties(t: Tree, t': Tree, n: Node, at: real)
    requires n.pageID in t.info && t.info[n.pageID].level == 0 && n.keys != []
    requires t'.info == t.info && t'.nodes == t.nodes[n.pageID := n]
    ensures Empties(t', at) <= Empties(t, at) && |Empties(t', at)| <= |Empties(t, at)|
  {
    SubsetCardinality(Empties(t', at), Empties(t, at));
  }

  lemma NearLeafInsert(t: Tree, t': Tree, n: Node, key: Value, tid: Tid)
    requires Domain(t) && Near(t) && n.pageID in t.info && t.info[n.pageID].level == 0 && n.keys != []
    requires key.HasType(t.keyType) && KeySize(key) <= SHORT_KEY && KeysFrom(t.nodes[n.pageID], n, key)
    requires t' == t.(nodes := t.nodes[n.pageID := n],
                      contents := t.contents[key := (if key in t.contents then t.contents[key] else []) + [tid]])
    ensures Near(t') && Slack(t', key)
  {
    forall p | p in t'.info ensures p in t'.nodes && NearNode(t', p) {
      assert NearNode(t, p);
    }
    forall at: real ensures EmptiesOk(t', at) {
      LeafInsertEmpties(t, t', n, key, tid, at);
    }
    LeafInsertSlack(t, t', n, key, tid);
  }

  lemma LeafInsertEmpties(t: Tree, t': Tree, n: Node, key: Value, tid: Tid, at: real)
    requires n.pageID in t.info && t.info[n.pageID].level == 0 && n.keys != [] && EmptiesOk(t, at)
    requires t' == t.(nodes := t.nodes[n.pageID := n],
                      contents := t.contents[key := (if key in t.contents then t.contents[key] else []) + [tid]])
    ensures EmptiesOk(t', at)
  {
    FewerEmpties(t, t', n, at);
    if Empties(t', at) != {} {
      var k :| Rank(k) == at && Overflowed(t, k, |Empties(t, at)|);
      assert Overflowed(t', k, |Empties(t', at)|);
    }
  }

  lemma LeafInsertSlack(t: Tree, t': Tree, n: Node, key: Value, tid: Tid)
    requires Domain(t) && n.pageID in t.info && t.info[n.pageID].level == 0 && n.keys != [] && key.HasType(t.keyType)
    requires EmptiesOk(t, Rank(key))
    requires t' == t.(nodes := t.nodes[n.pageID := n],
                      contents := t.contents[key := (if key in t.contents then t.contents[key] else []) + [tid]])
    ensures Slack(t', key)
  {
    FewerEmpties(t, t', n, Rank(key));
    if Empties(t', Rank(key)) != {} {
      var k :| Rank(k) == Rank(key) && Overflowed(t, k, |Empties(t, Rank(key))|);
      RankOrders(k, key);
    }
  }

  /** Leaves, what they hold and where they end are the same. */
  ghost predicate SameLeaves(t: Tree, t': Tree) {
    && t'.contents == t.contents && t'.leaves == t.leaves
    && (forall p :: p in t.info && t.info[p].level == 0 && p in t.nodes ==>
          && p in t'.info && t'.info[p].level == 0 && p in t'.nodes
          && t'.info[p].hi == t.info[p].hi && t'.nodes[p].keys == t.nodes[p].keys)
    && (forall p :: p in t'.info && t'.info[p].level == 0 ==> p in t.info && p in t.nodes && t.info[p].level == 0)
  }

  lemma KeepEmpties(t: Tree, t': Tree, at: real)
    requires Empties(t', at) == Empties(t, at) && t'.contents == t.contents && EmptiesOk(t, at)
    ensures EmptiesOk(t', at)
  {
    if Empties(t, at) != {} {
      var k :| Rank(k) == at && Overflowed(t, k, |Empties(t, at)|);
      assert Overflowed(t', k, |Empties(t', at)|);
    }
  }

  lemma SameEmpties(t: Tree, t': Tree, at: real)
    requires SameLeaves(t, t') && EmptiesOk(t, at)
    ensures EmptiesOk(t', at)
  {
    hide EmptiesOk;
    forall p ensures p in Empties(t', at) <==> p in Empties(t, at) {
      if p in Empties(t', at) { assert p in t.info; }
      if p in Empties(t, at) { assert p in t'.info; }
    }
    KeepEmpties(t, t', at);
  }

  // ----- Splitting a leaf -----

  /** Only the divided leaf can join the empty ones. */
  lemma LeafSplitEmpties(t: Tree, t': Tree, n: Node, mid: nat, j: nat, low: Node, up: Node, at: real)
    requires Domain(t) && Chain(t) && LeafSplit(t, t', n, mid, j, low, up)
    ensures n.pageID !in Empties(t, at)
    ensures Empties(t', at) == Empties(t, at) + if mid == 0 && at == Rank(n.keys[0]) then {n.pageID} else {}
  {
    hide Rank, Chain;
    LeafSplitNeighbour(t, n, j);
    forall p ensures p in Empties(t', at) <==> p in Empties(t, at) || (p == n.pageID && mid == 0 && at == Rank(n.keys[0])) {
      if p in t.info && p != n.pageID {
        assert t'.info[p] == t.info[p] && t'.nodes[p].keys == t.nodes[p].keys;
      }
    }
  }

  /** When one key alone is split off, its leaf joins the empty ones; it fits the page, so there are two at most. */
  lemma LoneSplitEmpties(t: Tree, t': Tree, n: Node, j: nat, low: Node, up: Node)
    requires Domain(t) && NodesOk(t) && Chain(t) && LeafSplit(t, t', n, 0, j, low, up) && EmptiesOk(t, Rank(n.keys[0]))
    requires |n.keys| == 1 && NodeSize(n) > PAGE_CAPACITY && NodeSize(n) <= PAGE_SIZE && Slack(t, n.keys[0])
    ensures EmptiesOk(t', Rank(n.keys[0]))
  {
    hide LeafSplit, Chain;
    LoneContents(t, t', n, j, low, up);
    var k, before := n.keys[0], Empties(t, Rank(n.keys[0]));
    LeafSplitEmpties(t, t', n, 0, j, low, up, Rank(k));
    assert |before + {n.pageID}| == |before| + 1;
    assert Overflowed(t', k, |Empties(t', Rank(k))|);
  }

  lemma LoneContents(t: Tree, t': Tree, n: Node, j: nat, low: Node, up: Node)
    requires NodesOk(t) && LeafSplit(t, t', n, 0, j, low, up) && |n.keys| == 1
    ensures n.keys[0] in t.contents && t'.contents == t.contents
    ensures NodeSize(n) == SingleKeySize(n.keys[0], |t.contents[n.keys[0]]|)
  {
    assert NodeOk(t, n.pageID);
    SingleKeyLeaf(n);
  }

  lemma LeafSplitEmptiesOk(t: Tree, t': Tree, n: Node, mid: nat, j: nat, low: Node, up: Node, at: real)
    requires Domain(t) && NodesOk(t) && Chain(t) && LeafSplit(t, t', n, mid, j, low, up) && EmptiesOk(t, at) && mid == |n.keys| / 2
    requires |n.keys| == 1 ==> NodeSize(n) > PAGE_CAPACITY && NodeSize(n) <= PAGE_SIZE && Slack(t, n.keys[0])
    ensures EmptiesOk(t', at)
  {
    hide EmptiesOk, Slack, Rank, NodeSize, Empties;
    if mid == 0 && at == Rank(n.keys[0]) {
      LoneSplitEmpties(t, t', n, j, low, up);
    } else {
      LeafSplitEmpties(t, t', n, mid, j, low, up, at);
      KeepEmpties(t, t', at);
    }
  }

  lemma NearLeafSplit(t: Tree, t': Tree, n: Node, mid: nat, j: nat, low: Node, up: Node)
    requires Domain(t) && NodesOk(t) && Chain(t)
    requires LeafSplit(t, t', n, mid, j, low, up) && Near(t) && mid == |n.keys| / 2
    requires |n.keys| == 1 ==> NodeSize(n) > PAGE_CAPACITY && NodeSize(n) <= PAGE_SIZE && Slack(t, n.keys[0])
    ensures Near(t')
  {
    LeafSplitNeighbour(t, n, j);
    forall x | x in t'.info ensures x in t'.nodes && NearNode(t', x) {
      if x != t.next {
        assert NearNode(t, x);
        assert x != n.pageID ==> t'.nodes[x].keys == t.nodes[x].keys;
        assert t.info[x].level == 0 ==> x in t.leaves;
      } else {
        assert NearNode(t, n.pageID);
      }
    }
    forall at: real ensures EmptiesOk(t', at) {
      LeafSplitEmptiesOk(t, t', n, mid, j, low, up, at);
    }
  }

  // ----- Pages just above the leaves -----

  lemma AtMostTwo(t: Tree, at: real, x: int, y: int, z: int)
    requires EmptiesOk(t, at) && x in Empties(t, at) && y in Empties(t, at) && z in Empties(t, at)
    ensures x == y || x == z || y == z
  {
    if x != y && x != z && y != z {
      assert |{x, y, z}| == 3;
      SubsetCardinality({x, y, z}, Empties(t, at));
    }
  }

  /** The ends of the `i`-th child of a page above the leaves. */
  lemma ChildEnds(t: Tree, p: int, i: nat)
    requires WellFormed(t, NoPending) && p in t.info && p in t.nodes && t.info[p].level == 1 && i < |t.nodes[p].children|
    ensures var n, c := t.nodes[p], t.nodes[p].children[i];
      && |n.children| == |n.keys| + 1
      && c in t.info && c in t.nodes && t.info[c].level == 0 && t.info[c].pos == i
      && t.info[c].lo == (if i == 0 then t.info[p].lo else Some(Rank(n.keys[i - 1])))
      && t.info[c].hi == (if i == |n.keys| then t.info[p].hi else Some(Rank(n.keys[i])))
    ensures InnerOk(t.nodes[p], t.info[p], t.keyType)
  {
    assert NodeOk(t, p);
    assert ChildOk(t, NoPending, p, i);
  }

  lemma EmptyChild(t: Tree, p: int, i: nat)
    requires WellFormed(t, NoPending) && p in t.info && p in t.nodes && t.info[p].level == 1 && i < |t.nodes[p].children|
    ensures var c := t.nodes[p].children[i];
      c in t.info && (t.info[c].lo.Some? && t.info[c].lo == t.info[c].hi ==> c in Empties(t, t.info[c].lo.value))
  {
    ChildEnds(t, p, i);
    var c := t.nodes[p].children[i];
    assert NodeOk(t, c);
    if t.info[c].lo.Some? && t.info[c].lo == t.info[c].hi {
      assert |t.nodes[c].keys| > 0 ==> Covers(t.info[c], t.nodes[c].keys[0]);
    }
  }

  lemma NearEmpties(t: Tree, at: real)
    requires Near(t)
    ensures EmptiesOk(t, at)
  {
  }

  /** Three neighbouring leaves follow one another. */
  lemma ThreeEnds(t: Tree, p: int, i: nat)
    requires WellFormed(t, NoPending) && p in t.info && p in t.nodes && t.info[p].level == 1 && i + 2 < |t.nodes[p].children|
    ensures var x, y, z := t.nodes[p].children[i], t.nodes[p].children[i + 1], t.nodes[p].children[i + 2];
      && x in t.info && y in t.info && z in t.info && x != y && x != z && y != z
      && t.info[x].hi.Some? && t.info[x].hi == t.info[y].lo && t.info[y].hi.Some? && t.info[y].hi == t.info[z].lo
      && AtOrAbove(t.info[x].lo, t.info[x].hi.value) && t.info[x].hi.value <= t.info[y].hi.value && AtOrBelow(t.info[z].hi, t.info[y].hi.value)
  {
    ChildEnds(t, p, i);
    ChildEnds(t, p, i + 1);
    ChildEnds(t, p, i + 2);
  }

  /** Three neighbouring leaves are responsible for something. */
  lemma ThreeChildren(t: Tree, p: int, i: nat)
    requires WellFormed(t, NoPending) && Near(t) && p in t.info && p in t.nodes && t.info[p].level == 1 && i + 2 < |t.nodes[p].children|
    ensures t.nodes[p].children[i] in t.info && t.nodes[p].children[i + 2] in t.info
    ensures Wider(t.info[t.nodes[p].children[i]].lo, t.info[t.nodes[p].children[i + 2]].hi)
  {
    hide Near, Rank, Empties, EmptiesOk;
    var x, y, z := t.nodes[p].children[i], t.nodes[p].children[i + 1], t.nodes[p].children[i + 2];
    EmptyChild(t, p, i);
    EmptyChild(t, p, i + 1);
    EmptyChild(t, p, i + 2);
    ThreeEnds(t, p, i);
    hide WellFormed;
    if t.info[x].lo.Some? && t.info[z].hi.Some? && t.info[x].lo.value >= t.info[z].hi.value {
      var at := t.info[x].lo.value;
      NearEmpties(t, at);
      AtMostTwo(t, at, x, y, z);
      assert false;
    }
  }

  lemma FirstThree(t: Tree, p: int)
    requires WellFormed(t, NoPending) && Near(t) && p in t.info && p in t.nodes && t.info[p].level == 1 && |t.nodes[p].keys| >= 3
    ensures Wider(t.info[p].lo, Some(Rank(t.nodes[p].keys[2])))
  {
    hide Near, Rank;
    ChildEnds(t, p, 0);
    ChildEnds(t, p, 2);
    ThreeChildren(t, p, 0);
  }

  lemma LastThree(t: Tree, p: int)
    requires WellFormed(t, NoPending) && Near(t) && p in t.info && p in t.nodes && t.info[p].level == 1 && |t.nodes[p].keys| >= 3
    ensures Below(t.info[p].hi, Rank(t.nodes[p].keys[|t.nodes[p].keys| - 3]))
  {
    hide Near, Rank;
    var m := |t.nodes[p].keys|;
    ChildEnds(t, p, m - 2);
    ChildEnds(t, p, m);
    ThreeChildren(t, p, m - 2);
  }

  /** No four keys in a row, ends of the interval included, are equal. */
  lemma NoFour(t: Tree, p: int)
    requires WellFormed(t, NoPending) && Near(t) && p in t.info && p in t.nodes && t.info[p].level == 1
    ensures forall b :: 2 <= b < |t.nodes[p].keys| ==> Wider(t.info[p].lo, Some(Rank(t.nodes[p].keys[b])))
    ensures forall a :: 0 <= a < |t.nodes[p].keys| - 2 ==> Below(t.info[p].hi, Rank(t.nodes[p].keys[a]))
  {
    hide Rank, Empties, EmptiesOk;
    var n := t.nodes[p];
    assert NodeOk(t, p);
    if |n.keys| >= 3 {
      FirstThree(t, p);
      LastThree(t, p);
    }
  }

  // ----- Internal pages -----

  lemma {:induction false} ShortKeysSize(keys: seq<Value>)
    requires AllShort(keys)
    ensures KeysSize(keys) <= SHORT_KEY * |keys|
  {
    if keys != [] {
      ShortKeysSize(keys[..|keys| - 1]);
    }
  }

  lemma ShortCount(keys: seq<Value>)
    requires AllShort(keys) && InnerSize(keys) > PAGE_CAPACITY
    ensures |keys| >= 5
  {
    ShortKeysSize(keys);
  }

  lemma NearAttach(t: Tree, t': Tree, q: Pending, key: Value, n: Node, n': Node)
    requires Domain(t) && NodesOk(t) && ParentsOk(t, q) && ChildrenOk(t, q) && PendingOk(t, q) && q.Pending? && q.left != t.root
    requires Attached(t, t', q, key, n, n') && Near(t) && KeySize(key) <= SHORT_KEY
    ensures Near(t')
  {
    AttachFacts(t, t', q, key, n, n');
    AttachPlace(t, t', q, key, n, n');
    NearAttachParent(t, t', q, key, n, n');
    forall p | p in t'.info ensures p in t'.nodes && NearNode(t', p) {
      assert NearNode(t, p);
      if p != n.pageID {
        assert t'.nodes[p].keys == t.nodes[p].keys;
      }
    }
    AttachLeaves(t, t', q, key, n, n');
    forall at: real ensures EmptiesOk(t', at) {
      SameEmpties(t, t', at);
    }
  }

  lemma AttachLeaves(t: Tree, t': Tree, q: Pending, key: Value, n: Node, n': Node)
    requires Domain(t) && q.Pending? && Attached(t, t', q, key, n, n') && n.pageID in t.info && t.info[n.pageID].level > 0
    ensures SameLeaves(t, t')
  {
  }

  lemma NearAttachParent(t: Tree, t': Tree, q: Pending, key: Value, n: Node, n': Node)
    requires Domain(t) && NodesOk(t) && ParentsOk(t, q) && ChildrenOk(t, q) && PendingOk(t, q) && q.Pending? && q.left != t.root
    requires Attached(t, t', q, key, n, n') && Near(t) && KeySize(key) <= SHORT_KEY
    ensures n.pageID in t'.info && NearNode(t', n.pageID)
  {
    AttachFacts(t, t', q, key, n, n');
    AttachPlace(t, t', q, key, n, n');
    assert NearNode(t, q.left) && NearNode(t, n.pageID);
    InsertedKeys(n.keys, t.info[q.left].pos, key);
    if t.info[q.left].level > 0 {
      AttachStrictKeys(t, t', q, key, n, n');
    }
  }

  lemma NearInnerSplit(t: Tree, t': Tree, n: Node, mid: nat, low: Node, up: Node)
    requires WellFormed(t, NoPending) && InnerSplit(t, t', n, mid, low, up) && Near(t)
    requires mid == |n.keys| / 2 && InnerSize(n.keys) > PAGE_CAPACITY
    ensures Near(t')
  {
    assert NearNode(t, n.pageID);
    ShortCount(n.keys);
    MiddleInside(t, n.pageID);
    InnerSplitLeaves(t, t', n, mid, low, up);
    forall p | p in t'.info ensures p in t'.nodes && NearNode(t', p) {
      if p == n.pageID || p == t.next {
        HalfNear(t, t', n, mid, low, up);
      } else {
        assert NearNode(t, p);
        assert t'.nodes[p].keys == t.nodes[p].keys;
      }
    }
    forall at: real ensures EmptiesOk(t', at) {
      SameEmpties(t, t', at);
    }
  }

  lemma InnerSplitLeaves(t: Tree, t': Tree, n: Node, mid: nat, low: Node, up: Node)
    requires Domain(t) && InnerSplit(t, t', n, mid, low, up)
    ensures SameLeaves(t, t')
  {
  }

  lemma HalfNear(t: Tree, t': Tree, n: Node, mid: nat, low: Node, up: Node)
    requires Domain(t) && InnerSplit(t, t', n, mid, low, up) && NearNode(t, n.pageID)
    requires Wider(t.info[n.pageID].lo, Some(Rank(n.keys[mid]))) && Below(t.info[n.pageID].hi, Rank(n.keys[mid]))
    ensures NearNode(t', n.pageID) && NearNode(t', t.next)
  {
  }

  /** In a page of five keys or more the middle key is strictly inside. */
  lemma MiddleInside(t: Tree, p: int)
    requires WellFormed(t, NoPending) && Near(t) && p in t.info && p in t.nodes && t.info[p].level > 0 && |t.nodes[p].keys| >= 5
    ensures var keys := t.nodes[p].keys;
      Wider(t.info[p].lo, Some(Rank(keys[|keys| / 2]))) && Below(t.info[p].hi, Rank(keys[|keys| / 2]))
  {
    assert NearNode(t, p);
    if t.info[p].level == 1 {
      NoFour(t, p);
    }
  }

  lemma NearRooted(t: Tree, t': Tree, q: Pending, key: Value)
    requires Domain(t) && PendingOk(t, q) && Rooted(t, t', q, key) && Near(t) && KeySize(key) <= SHORT_KEY
    ensures Near(t')
  {
    RootedLeaves(t, t', q, key);
    forall p | p in t'.info ensures p in t'.nodes && NearNode(t', p) {
      if p != t.next {
        assert NearNode(t, p);
        assert t'.nodes[p].keys == t.nodes[p].keys;
      }
    }
    forall at: real ensures EmptiesOk(t', at) {
      SameEmpties(t, t', at);
    }
  }

  lemma RootedLeaves(t: Tree, t': Tree, q: Pending, key: Value)
    requires Domain(t) && PendingOk(t, q) && Rooted(t, t', q, key)
    ensures SameLeaves(t, t')
  {
  }

  // ----- What is passed on -----

  lemma NearSplitsInside(t: Tree, p: int)
    requires WellFormed(t, NoPending) && Near(t) && p in t.info && p in t.nodes && t.info[p].level > 0
    ensures SplitsInside(Above(t.nodes[p].keys, t.info[p].hi), t.keyType, true)
  {
    var keys := t.nodes[p].keys;
    assert NearNode(t, p) && NodeOk(t, p);
    if t.info[p].level > 1 {
      StrictSplitsInside(keys, t.info[p], t.keyType, true);
    } else {
      NoFour(t, p);
      NoFourSplitsInside(keys, t.info[p], t.keyType);
    }
  }

  lemma NoFourSplitsInside(keys: seq<Value>, i: Info, t: Type)
    requires Nondecreasing(keys) && AllShort(keys) && forall a :: 0 <= a < |keys| - 2 ==> Below(i.hi, Rank(keys[a]))
    ensures SplitsInside(Above(keys, i.hi), t, true)
  {
    forall key: Value | KeySize(key) <= SHORT_KEY && Below(i.hi, Rank(key)) && InnerSize(WithSeparator(keys, key)) > PAGE_CAPACITY
      ensures Below(i.hi, Rank(Middle(WithSeparator(keys, key))))
    {
      var u := UpperPlace(keys, key);
      InsertedKeys(keys, u, key);
      ShortCount(WithSeparator(keys, key));
      UpperPlaceSplits(keys, key);
    }
  }

  lemma {:induction false} UpperPlaceSplits(keys: seq<Value>, key: Value)
    ensures forall k :: 0 <= k < UpperPlace(keys, key) ==> Rank(keys[k]) <= Rank(key)
  {
    if keys != [] && Rank(keys[0]) <= Rank(key) {
      UpperPlaceSplits(keys[1..], key);
      assert forall k :: 1 <= k < |keys| ==> keys[k] == keys[1..][k - 1];
    }
  }

  /** In every state that inserts of short keys lead to, an insert of a short key separates. */
  lemma NearSeparates(t: Tree, key: Value)
    requires WellFormed(t, NoPending) && Near(t) && key.HasType(t.keyType) && KeySize(key) <= SHORT_KEY
    ensures InsertSeparates(t, key)
  {
    forall r | r in t.info && r in t.nodes && t.info[r].level > 0
      ensures SplitsInside(Above(t.nodes[r].keys, t.info[r].hi), t.keyType, true)
    {
      NearSplitsInside(t, r);
    }
    assert NearNode(t, LeafFor(t, key));
    InsertSeparatesIn(t, key, true);
  }
}
