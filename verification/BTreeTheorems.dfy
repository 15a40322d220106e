/** Consequences of the B+tree invariant: how deep the tree is, and that its pages read back. */
module BTreeTheorems {
  import opened Values
  import opened Pages
  import opened KeyCodec
  import opened BTreeShape
  import opened BTreePages
  import opened BTreeSeparators
  import opened BTreeKept
  import opened BTreeSteps
  import opened BTreeInt64
  import opened BTreeCodec

  // ----- Height -----

  function Pow340(h: nat): nat {
    if h == 0 then 1 else 340 * Pow340(h - 1)
  }

  /** The stored keys in an interval. */
  ghost function KeysBetween(t: Tree, lo: Option<real>, hi: Option<real>): set<Value> {
    set k | k in t.contents && AtOrAbove(lo, Rank(k)) && Below(hi, Rank(k))
  }

  ghost predicate Stocked(t: Tree) {
    WellFormed(t, NoPending) && Int64Pages(t, NO_PAGE) && NoEmptyLeaf(t)
  }

  lemma StockedNode(t: Tree, p: int)
    requires Stocked(t) && p in t.info
    ensures p in t.nodes
    ensures t.info[p].level == 0 ==> KeysBetween(t, t.info[p].lo, t.info[p].hi) != {}
    ensures t.info[p].level > 0 ==>
      var n := t.nodes[p];
      && |n.children| == |n.keys| + 1 && |n.children| >= (if p == t.root then 2 else 340)
      && n.children[|n.keys|] in t.info && t.info[n.children[|n.keys|]].hi == t.info[p].hi
  {
    assert NodeOk(t, p);
    var n := t.nodes[p];
    if t.info[p].level == 0 {
      assert Covers(t.info[p], n.keys[0]);
      assert n.keys[0] in KeysBetween(t, t.info[p].lo, t.info[p].hi);
    } else {
      assert ChildOk(t, NoPending, p, |n.keys|);
    }
  }

  lemma StockedChild(t: Tree, p: int, i: nat)
    requires Stocked(t) && p in t.info && p in t.nodes && t.info[p].level > 0 && i < |t.nodes[p].children|
    ensures var c := t.nodes[p].children[i];
      && c in t.info && c != t.root && t.info[c].level == t.info[p].level - 1
      && (i == 0 ==> t.info[c].lo == t.info[p].lo)
      && (i > 0 ==> t.nodes[p].children[i - 1] in t.info && t.info[t.nodes[p].children[i - 1]].hi == t.info[c].lo)
      && (i > 0 ==> t.info[c].lo.Some? && AtOrAbove(t.info[p].lo, t.info[c].lo.value))
      && (i > 0 ==> AtOrBelow(t.info[c].hi, t.info[c].lo.value))
  {
    SlotOfChild(t, p, i);
  }

  /** Where the `i`-th child of a page begins and ends. */
  lemma SlotOfChild(t: Tree, p: int, i: nat)
    requires WellFormed(t, NoPending) && p in t.info && p in t.nodes && t.info[p].level > 0 && i < |t.nodes[p].children|
    ensures var c := t.nodes[p].children[i];
      && c in t.info && c != t.root && t.info[c].level == t.info[p].level - 1
      && (i == 0 ==> t.info[c].lo == t.info[p].lo)
      && (i > 0 ==> t.nodes[p].children[i - 1] in t.info && t.info[t.nodes[p].children[i - 1]].hi == t.info[c].lo)
      && (i > 0 ==> t.info[c].lo.Some? && AtOrAbove(t.info[p].lo, t.info[c].lo.value))
      && (i > 0 ==> AtOrBelow(t.info[c].hi, t.info[c].lo.value))
  {
    assert NodeOk(t, p);
    assert ChildOk(t, NoPending, p, i);
    if i > 0 {
      assert ChildOk(t, NoPending, p, i - 1);
      SeparatorInside(t, p, i - 1);
    }
  }

  /** A page `level` steps above the leaves, other than the root, is in charge of at least 340^level keys. */
  lemma {:induction false} SubtreeHolds(t: Tree, p: int)
    requires Stocked(t) && p in t.info && p != t.root
    ensures |KeysBetween(t, t.info[p].lo, t.info[p].hi)| >= Pow340(t.info[p].level)
    decreases t.info[p].level, 1, 0
  {
    hide Stocked;
    StockedNode(t, p);
    if t.info[p].level > 0 {
      var n := t.nodes[p];
      ChildrenHold(t, p, |n.children|);
      MulAtLeast(|n.children|, 340, Pow340(t.info[p].level - 1));
    }
  }

  lemma MulAtLeast(a: nat, b: nat, c: nat)
    requires a >= b
    ensures a * c >= b * c
  {
  }

  lemma {:induction false} ChildrenHold(t: Tree, p: int, i: nat)
    requires Stocked(t) && p in t.info && p in t.nodes && t.info[p].level > 0
    requires i <= |t.nodes[p].children|
    ensures i > 0 ==> var c := t.nodes[p].children[i - 1];
      c in t.info && |KeysBetween(t, t.info[p].lo, t.info[c].hi)| >= i * Pow340(t.info[p].level - 1)
    decreases t.info[p].level, 0, i
  {
    hide Stocked, Pow340;
    if i > 0 {
      var c := t.nodes[p].children[i - 1];
      StockedChild(t, p, i - 1);
      SubtreeHolds(t, c);
      if i > 1 {
        ChildrenHold(t, p, i - 1);
        JoinIntervals(t, t.info[p].lo, t.info[c].lo, t.info[c].hi);
      }
    }
  }

  lemma JoinIntervals(t: Tree, lo: Option<real>, at: Option<real>, hi: Option<real>)
    requires at.Some? && AtOrAbove(lo, at.value) && AtOrBelow(hi, at.value)
    ensures |KeysBetween(t, lo, hi)| >= |KeysBetween(t, lo, at)| + |KeysBetween(t, at, hi)|
  {
    var before, here, all := KeysBetween(t, lo, at), KeysBetween(t, at, hi), KeysBetween(t, lo, hi);
    assert before !! here && before + here <= all;
    SubsetCardinality(before + here, all);
  }

  lemma SeparatorInside(t: Tree, p: int, i: nat)
    requires NodesOk(t) && p in t.info && p in t.nodes && t.info[p].level > 0 && i < |t.nodes[p].keys|
    ensures AtOrAbove(t.info[p].lo, Rank(t.nodes[p].keys[i]))
    ensures i + 1 < |t.nodes[p].keys| ==> Rank(t.nodes[p].keys[i]) <= Rank(t.nodes[p].keys[i + 1])
    ensures AtOrBelow(t.info[p].hi, Rank(t.nodes[p].keys[i]))
  {
    assert NodeOk(t, p);
  }

  /** A tree of height h >= 2 over INT64 keys holds at least 2 * 340^(h-2) distinct keys. */
  lemma HeightIsLogarithmic(t: Tree)
    requires Stocked(t) && t.height >= 2
    ensures |t.contents| >= 2 * Pow340(t.height - 2)
  {
    var n := t.nodes[t.root];
    StockedNode(t, t.root);
    ChildrenHold(t, t.root, |n.children|);
    MulAtLeast(|n.children|, 2, Pow340(t.height - 2));
    SubsetCardinality(KeysBetween(t, None, None), t.contents.Keys);
  }

  // ----- Height, with leaves that were left empty -----

  ghost predicate Populated(t: Tree) {
    WellFormed(t, NoPending) && t.keyType == INT64 && Kept(t, NO_PAGE) && PagesFit(t.nodes)
  }

  lemma FewTids(t: Tree, k: Value)
    requires Populated(t) && k in t.contents
    ensures k.Int64? && |t.contents[k]| <= MAX_TIDS
  {
    if |t.contents[k]| > MAX_TIDS {
      TooManyTids(t, k);
      assert false;
    }
  }

  /** An INT64 key leaves at most one leaf empty. */
  lemma OneEmpty(t: Tree, at: real, x: int, y: int)
    requires Populated(t) && x in Empties(t, at) && y in Empties(t, at)
    ensures x == y
    ensures exists k :: k in t.contents && Rank(k) == at
  {
    hide WellFormed, Empties, Near, PagesFit, Rank, Int64Pages;
    NearEmpties(t, at);
    var k :| Rank(k) == at && Overflowed(t, k, |Empties(t, at)|);
    FewTids(t, k);
    assert x != y ==> |{x, y}| == 2;
    SubsetCardinality({x, y}, Empties(t, at));
  }

  lemma NotCovered(t: Tree, y: int, k: Value)
    requires Populated(t) && y in t.info && y in t.nodes && t.info[y].level == 0 && t.nodes[y].keys == [] && k in t.contents
    ensures !Covers(t.info[y], k)
  {
    assert NodeOk(t, y);
  }

  /** Of two neighbouring leaves one holds a key. */
  lemma PairHolds(t: Tree, p: int, i: nat)
    requires Populated(t) && p in t.info && p in t.nodes && t.info[p].level == 1 && i + 1 < |t.nodes[p].children|
    ensures t.nodes[p].children[i] in t.info && t.nodes[p].children[i + 1] in t.info
    ensures KeysBetween(t, t.info[t.nodes[p].children[i]].lo, t.info[t.nodes[p].children[i + 1]].hi) != {}
  {
    var x, y := t.nodes[p].children[i], t.nodes[p].children[i + 1];
    ChildEnds(t, p, i);
    ChildEnds(t, p, i + 1);
    var all := KeysBetween(t, t.info[x].lo, t.info[y].hi);
    if t.nodes[x].keys != [] {
      LeafKeyBetween(t, x);
      assert t.nodes[x].keys[0] in all;
    } else if t.nodes[y].keys != [] {
      LeafKeyBetween(t, y);
      assert t.nodes[y].keys[0] in all;
    } else {
      TwoEmptyNeighbours(t, x, y);
    }
  }

  lemma TwoEmptyNeighbours(t: Tree, x: int, y: int)
    requires Populated(t) && x in t.info && y in t.info && x in t.nodes && y in t.nodes && x != y
    requires t.info[x].level == 0 && t.info[y].level == 0 && t.info[x].hi.Some? && t.info[x].hi == t.info[y].lo
    requires AtOrBelow(t.info[y].hi, t.info[x].hi.value)
    ensures t.nodes[x].keys != [] || t.nodes[y].keys != []
  {
    hide Populated, Kept, PagesFit;
    if t.nodes[x].keys == [] && t.nodes[y].keys == [] {
      var at := t.info[x].hi.value;
      OneEmpty(t, at, x, x);
      var k :| k in t.contents && Rank(k) == at;
      NotCovered(t, y, k);
      OneEmpty(t, at, x, y);
      assert false;
    }
  }

  lemma LeafKeyBetween(t: Tree, p: int)
    requires WellFormed(t, NoPending) && p in t.info && p in t.nodes && t.info[p].level == 0 && t.nodes[p].keys != []
    ensures t.nodes[p].keys[0] in KeysBetween(t, t.info[p].lo, t.info[p].hi)
  {
    assert NodeOk(t, p);
    assert Covers(t.info[p], t.nodes[p].keys[0]);
  }

  lemma PopulatedNode(t: Tree, p: int)
    requires Populated(t) && p in t.info && t.info[p].level > 0
    ensures p in t.nodes
    ensures var n := t.nodes[p];
      && |n.children| == |n.keys| + 1 && |n.children| >= (if p == t.root then 2 else 340)
      && n.children[|n.keys|] in t.info && t.info[n.children[|n.keys|]].hi == t.info[p].hi
  {
    assert NodeOk(t, p);
    assert ChildOk(t, NoPending, p, |t.nodes[p].keys|);
  }

  lemma PopulatedChild(t: Tree, p: int, i: nat)
    requires Populated(t) && p in t.info && p in t.nodes && t.info[p].level > 0 && i < |t.nodes[p].children|
    ensures var c := t.nodes[p].children[i];
      && c in t.info && c != t.root && t.info[c].level == t.info[p].level - 1
      && (i == 0 ==> t.info[c].lo == t.info[p].lo)
      && (i > 0 ==> t.nodes[p].children[i - 1] in t.info && t.info[t.nodes[p].children[i - 1]].hi == t.info[c].lo)
      && (i > 0 ==> t.info[c].lo.Some? && AtOrAbove(t.info[p].lo, t.info[c].lo.value))
      && (i > 0 ==> AtOrBelow(t.info[c].hi, t.info[c].lo.value))
  {
    SlotOfChild(t, p, i);
  }

  /** The first `i` leaves below a page hold at least one key for every two of them. */
  lemma {:induction false} LeavesHold(t: Tree, p: int, i: nat)
    requires Populated(t) && p in t.info && p in t.nodes && t.info[p].level == 1 && i <= |t.nodes[p].children|
    ensures i > 0 ==> var c := t.nodes[p].children[i - 1];
      c in t.info && |KeysBetween(t, t.info[p].lo, t.info[c].hi)| >= i / 2
  {
    hide Populated;
    if i > 0 {
      PopulatedChild(t, p, i - 1);
    }
    if i >= 2 {
      var b, c := t.nodes[p].children[i - 2], t.nodes[p].children[i - 1];
      PopulatedChild(t, p, i - 2);
      PairHolds(t, p, i - 2);
      if i > 2 {
        LeavesHold(t, p, i - 2);
        PairEnds(t, p, i - 2);
        JoinIntervals(t, t.info[p].lo, t.info[b].lo, t.info[c].hi);
      }
    }
  }

  lemma PairEnds(t: Tree, p: int, i: nat)
    requires Populated(t) && p in t.info && p in t.nodes && t.info[p].level == 1 && 0 < i && i + 1 < |t.nodes[p].children|
    ensures var b, c := t.nodes[p].children[i], t.nodes[p].children[i + 1];
      b in t.info && c in t.info && t.info[b].lo.Some? && AtOrBelow(t.info[c].hi, t.info[b].lo.value)
  {
    ChildEnds(t, p, i);
    ChildEnds(t, p, i + 1);
  }

  /** A page other than the root, `level` steps above the leaves, is in charge of at least 170 * 340^(level - 1) keys. */
  lemma {:induction false} PopulatedSubtree(t: Tree, p: int)
    requires Populated(t) && p in t.info && p != t.root && t.info[p].level >= 1
    ensures |KeysBetween(t, t.info[p].lo, t.info[p].hi)| >= 170 * Pow340(t.info[p].level - 1)
    decreases t.info[p].level, 1, 0
  {
    hide Populated;
    PopulatedNode(t, p);
    var n := t.nodes[p];
    if t.info[p].level == 1 {
      LeavesHold(t, p, |n.children|);
    } else {
      PopulatedChildren(t, p, |n.children|);
      MulAtLeast(|n.children|, 340, 170 * Pow340(t.info[p].level - 2));
    }
  }

  lemma {:induction false} PopulatedChildren(t: Tree, p: int, i: nat)
    requires Populated(t) && p in t.info && p in t.nodes && t.info[p].level >= 2 && i <= |t.nodes[p].children|
    ensures i > 0 ==> var c := t.nodes[p].children[i - 1];
      c in t.info && |KeysBetween(t, t.info[p].lo, t.info[c].hi)| >= i * (170 * Pow340(t.info[p].level - 2))
    decreases t.info[p].level, 0, i
  {
    hide Populated, Pow340;
    if i > 0 {
      var c := t.nodes[p].children[i - 1];
      PopulatedChild(t, p, i - 1);
      PopulatedSubtree(t, c);
      if i > 1 {
        PopulatedChildren(t, p, i - 1);
        JoinIntervals(t, t.info[p].lo, t.info[c].lo, t.info[c].hi);
      }
    }
  }

  /** In every reachable state, h levels over INT64 keys hold at least 340^(h-2) distinct keys. */
  lemma PopulatedHeight(t: Tree)
    requires Populated(t) && t.height >= 2
    ensures |t.contents| >= Pow340(t.height - 2)
  {
    hide Kept, PagesFit;
    var n := t.nodes[t.root];
    PopulatedNode(t, t.root);
    SubsetCardinality(KeysBetween(t, None, None), t.contents.Keys);
    if t.height == 2 {
      LeavesHold(t, t.root, |n.children|);
    } else {
      PopulatedChildren(t, t.root, |n.children|);
      MulAtLeast(|n.children|, 2, 170 * Pow340(t.height - 3));
    }
  }

  lemma TidyLeaves(t: Tree)
    requires Tidy(t) && t.height >= 2
    ensures NoEmptyLeaf(t)
  {
    forall p | p in t.info && t.info[p].level == 0 ensures p in t.nodes && |t.nodes[p].keys| >= 1 {
      assert TidyNode(t, p);
    }
  }

  // ----- Pages read back -----

  /** Every page of the tree, once written over any page, reads back as it is in the store,
      as long as page ids fit an int32. */
  lemma PagesReadBack(t: Tree, p: int, s: seq<byte>)
    requires WellFormed(t, NoPending) && t.next <= 0x8000_0000 && p in t.info
    ensures p in t.nodes && Encodable(t.nodes[p], t.keyType)
    ensures Holds(s, t.nodes[p], t.keyType) ==> DecodeNode(s, p, t.keyType) == Some(t.nodes[p])
  {
    PagesEncodable(t, p);
    if Holds(s, t.nodes[p], t.keyType) {
      ReadAfterWrite(s, t.nodes[p], t.keyType);
    }
  }

  lemma PagesEncodable(t: Tree, p: int)
    requires WellFormed(t, NoPending) && t.next <= 0x8000_0000 && p in t.info
    ensures p in t.nodes && Encodable(t.nodes[p], t.keyType) && t.nodes[p].pageID == p
  {
    assert NodeOk(t, p);
    assert p != t.root ==> ParentOk(t, p);
    var n := t.nodes[p];
    forall i | 0 <= i < |n.children| ensures IsInt32(n.children[i]) {
      assert ChildOk(t, NoPending, p, i);
    }
  }
}
