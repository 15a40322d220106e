/** The leaf-chain walk of a range search: what it has collected at each position. */
module BTreeScan {
  import opened Values
  import opened Pages
  import opened IndexLog
  import opened BTreeShape

  /** The walk stands in leaf `cur` before key index `pos`; `k` lies behind it. */
  ghost predicate Passed(t: Tree, cur: int, pos: nat, k: Value)
    requires cur in t.info && cur in t.nodes && pos <= |t.nodes[cur].keys|
  {
    if pos == 0 then t.info[cur].lo.Some? && Rank(k) < t.info[cur].lo.value
    else Rank(k) <= Rank(t.nodes[cur].keys[pos - 1])
  }

  ghost predicate InScope(t: Tree, r: Range) {
    r.HasType(t.keyType) && Domain(t)
  }

  /** `ks` lists, ascending, exactly the keys in range that the walk has passed. */
  ghost predicate Scanned(t: Tree, r: Range, cur: int, pos: nat, ks: seq<Value>)
    requires InScope(t, r)
  {
    && cur in t.info && cur in t.nodes && t.info[cur].level == 0 && pos <= |t.nodes[cur].keys|
    && StrictlyAscending(ks)
    && (forall k :: k in ks ==> k in t.contents && r.Contains(k) && Passed(t, cur, pos, k))
    && (forall k :: k in t.contents && r.Contains(k) && Passed(t, cur, pos, k) ==> k in ks)
  }

  ghost predicate Complete(t: Tree, r: Range, ks: seq<Value>)
    requires InScope(t, r)
  {
    StrictlyAscending(ks) && forall k :: k in ks <==> k in t.contents && r.Contains(k)
  }

  lemma ScanFromLeftmost(t: Tree, r: Range)
    requires WellFormed(t, NoPending) && InScope(t, r)
    ensures Scanned(t, r, t.leftmost, 0, [])
  {
    hide NodesOk, ChildrenOk, ParentsOk, Rank, Covers, Range.Contains;
    assert LinkOk(t, 0);
  }

  lemma ScanFromKey(t: Tree, r: Range, cur: int, pos: nat)
    requires WellFormed(t, NoPending) && InScope(t, r) && r.from.Some?
    requires cur in t.info && cur in t.nodes && t.info[cur].level == 0 && Covers(t.info[cur], r.from.value)
    requires pos <= |t.nodes[cur].keys|
    requires forall i :: 0 <= i < pos ==> Rank(t.nodes[cur].keys[i]) < Rank(r.from.value)
    ensures Scanned(t, r, cur, pos, [])
  {
  }

  /** A passed key is either the next key of the leaf or was passed before. */
  lemma PassedNext(t: Tree, cur: int, pos: nat, k: Value)
    requires Domain(t) && cur in t.info && cur in t.nodes && t.info[cur].level == 0 && NodeOk(t, cur)
    requires pos < |t.nodes[cur].keys| && k in t.contents
    ensures Passed(t, cur, pos + 1, k) <==> Passed(t, cur, pos, k) || k == t.nodes[cur].keys[pos]
    ensures !Passed(t, cur, pos, k) ==> Rank(k) >= Rank(t.nodes[cur].keys[pos])
  {
    var n := t.nodes[cur];
    RankOrders(k, n.keys[pos]);
    assert Covers(t.info[cur], n.keys[pos]);
    if Covers(t.info[cur], k) {
      var i :| 0 <= i < |n.keys| && n.keys[i] == k;
      assert i < pos ==> i <= pos - 1 && Rank(n.keys[i]) <= Rank(n.keys[pos - 1]);
    }
    assert pos > 0 ==> Covers(t.info[cur], n.keys[pos - 1]);
  }

  lemma ScanSkip(t: Tree, r: Range, cur: int, pos: nat, ks: seq<Value>)
    requires InScope(t, r) && Scanned(t, r, cur, pos, ks) && NodeOk(t, cur)
    requires pos < |t.nodes[cur].keys|
    requires t.nodes[cur].keys[pos].HasType(t.keyType) && !r.AboveFrom(t.nodes[cur].keys[pos])
    ensures Scanned(t, r, cur, pos + 1, ks)
  {
    forall k | k in t.contents ensures Passed(t, cur, pos + 1, k) <==> Passed(t, cur, pos, k) || k == t.nodes[cur].keys[pos] {
      PassedNext(t, cur, pos, k);
    }
  }

  lemma ScanTake(t: Tree, r: Range, cur: int, pos: nat, ks: seq<Value>)
    requires InScope(t, r) && Scanned(t, r, cur, pos, ks) && NodeOk(t, cur)
    requires pos < |t.nodes[cur].keys|
    requires t.nodes[cur].keys[pos].HasType(t.keyType) && r.Contains(t.nodes[cur].keys[pos])
    ensures Scanned(t, r, cur, pos + 1, ks + [t.nodes[cur].keys[pos]])
  {
    var key := t.nodes[cur].keys[pos];
    forall k | k in t.contents ensures Passed(t, cur, pos + 1, k) <==> Passed(t, cur, pos, k) || k == key {
      PassedNext(t, cur, pos, k);
    }
    assert key in t.contents;
    assert Covers(t.info[cur], key);
    forall i | 0 <= i < |ks| ensures Rank(ks[i]) < Rank(key) {
      assert ks[i] in ks;
      assert pos > 0 ==> Rank(t.nodes[cur].keys[pos - 1]) < Rank(key);
    }
  }

  lemma ScanStop(t: Tree, r: Range, cur: int, pos: nat, ks: seq<Value>)
    requires InScope(t, r) && Scanned(t, r, cur, pos, ks) && NodeOk(t, cur)
    requires pos < |t.nodes[cur].keys|
    requires t.nodes[cur].keys[pos].HasType(t.keyType) && !r.BelowTo(t.nodes[cur].keys[pos])
    ensures Complete(t, r, ks)
  {
    forall k | k in t.contents && r.Contains(k) ensures k in ks {
      PassedNext(t, cur, pos, k);
      RankOrders(k, t.nodes[cur].keys[pos]);
    }
  }

  lemma LeafIntervalOrdered(t: Tree, j: nat)
    requires Chain(t) && j < |t.leaves|
    ensures t.leaves[j] in t.info
    ensures var i := t.info[t.leaves[j]]; i.lo.Some? && i.hi.Some? ==> i.lo.value <= i.hi.value
  {
    assert LinkOk(t, j);
    if 0 < j < |t.leaves| - 1 {
      assert LinkOk(t, j + 1);
      assert Precedes(t, t.leaves[j - 1], t.leaves[j + 1]);
    }
  }

  /** Behind the last key of a leaf lies everything below the end of its interval. */
  lemma PassedLeaf(t: Tree, j: nat, k: Value)
    requires Domain(t) && Chain(t) && NodesOk(t) && j < |t.leaves| && k in t.contents
    ensures t.leaves[j] in t.info && t.leaves[j] in t.nodes
    ensures Passed(t, t.leaves[j], |t.nodes[t.leaves[j]].keys|, k) <==> Below(t.info[t.leaves[j]].hi, Rank(k))
  {
    LeafIntervalOrdered(t, j);
    assert LinkOk(t, j);
    var cur := t.leaves[j];
    var n := t.nodes[cur];
    assert NodeOk(t, cur);
    if Covers(t.info[cur], k) {
      var i :| 0 <= i < |n.keys| && n.keys[i] == k;
      assert Rank(n.keys[i]) <= Rank(n.keys[|n.keys| - 1]);
    } else if |n.keys| > 0 {
      assert Covers(t.info[cur], n.keys[|n.keys| - 1]);
      assert Covers(t.info[cur], n.keys[0]);
    }
  }

  lemma ScanNextLeaf(t: Tree, r: Range, j: nat, ks: seq<Value>)
    requires InScope(t, r) && Chain(t) && NodesOk(t) && j + 1 < |t.leaves|
    requires t.leaves[j] in t.nodes && Scanned(t, r, t.leaves[j], |t.nodes[t.leaves[j]].keys|, ks)
    ensures Scanned(t, r, t.leaves[j + 1], 0, ks)
  {
    assert LinkOk(t, j) && LinkOk(t, j + 1);
    assert Precedes(t, t.leaves[j], t.leaves[j + 1]);
    forall k | k in t.contents
      ensures Passed(t, t.leaves[j + 1], 0, k) <==> Passed(t, t.leaves[j], |t.nodes[t.leaves[j]].keys|, k)
    {
      PassedLeaf(t, j, k);
    }
  }

  lemma ScanLastLeaf(t: Tree, r: Range, ks: seq<Value>)
    requires InScope(t, r) && Chain(t) && NodesOk(t)
    requires var cur := t.leaves[|t.leaves| - 1]; cur in t.nodes && Scanned(t, r, cur, |t.nodes[cur].keys|, ks)
    ensures Complete(t, r, ks)
  {
    var j := |t.leaves| - 1;
    assert LinkOk(t, j);
    forall k | k in t.contents && r.Contains(k) ensures k in ks {
      PassedLeaf(t, j, k);
    }
  }

  /** A complete list is the ascending enumeration of the logged keys in range. */
  lemma CompleteIsRange(t: Tree, r: Range, ks: seq<Value>, log: seq<Entry>)
    requires InScope(t, r) && Complete(t, r, ks) && Files(t.contents, log, t.keyType)
    ensures Gather(log, ks) == RangeTids(log, r, t.keyType)
  {
    var s := KeysInRange(log, r, t.keyType);
    forall k ensures k in t.contents <==> k in KeysOf(log) {
      TidsOfNonempty(log, k);
    }
    assert forall k :: k in ks <==> k in s;
    AscendingIsUnique(ks, s, t.keyType);
  }

  lemma EmptyRange(t: Tree, r: Range, log: seq<Entry>)
    requires InScope(t, r) && Files(t.contents, log, t.keyType)
    requires r.from.Some? && r.to.Some? && Compare(r.from.value, r.to.value) > 0
    ensures RangeTids(log, r, t.keyType) == []
  {
    assert Complete(t, r, []);
    CompleteIsRange(t, r, [], log);
  }

  // ----- The same steps, stated over the whole invariant -----

  lemma TreeInScope(t: Tree, r: Range)
    requires WellFormed(t, NoPending) && r.HasType(t.keyType)
    ensures InScope(t, r)
  {
  }

  lemma ScanLeaf(t: Tree, r: Range, j: nat)
    requires WellFormed(t, NoPending) && j < |t.leaves|
    ensures var cur := t.leaves[j];
      && cur in t.info && cur in t.nodes && t.info[cur].level == 0
      && |t.nodes[cur].values| == |t.nodes[cur].keys|
      && (forall i :: 0 <= i < |t.nodes[cur].keys| ==> t.nodes[cur].keys[i].HasType(t.keyType))
      && t.nodes[cur].rightSibPageID == (if j == |t.leaves| - 1 then NO_PAGE else t.leaves[j + 1])
    ensures forall i :: 0 <= i < |t.leaves| ==> t.leaves[i] != NO_PAGE && t.leaves[i] in t.nodes
  {
    assert LinkOk(t, j);
    assert NodeOk(t, t.leaves[j]);
    forall i | 0 <= i < |t.leaves| ensures t.leaves[i] != NO_PAGE && t.leaves[i] in t.nodes { assert LinkOk(t, i); }
  }

  lemma ScanStart(t: Tree, r: Range, cur: int) returns (j: nat)
    requires WellFormed(t, NoPending)
    requires cur == t.leftmost || (cur in t.info && t.info[cur].level == 0)
    ensures j < |t.leaves| && t.leaves[j] == cur
  {
    j :| 0 <= j < |t.leaves| && t.leaves[j] == cur;
  }

  /** One key of the current leaf: skipped below the range, or taken inside it. */
  lemma ScanKey(t: Tree, r: Range, cur: int, pos: nat, ks: seq<Value>, log: seq<Entry>)
    requires WellFormed(t, NoPending) && InScope(t, r) && Scanned(t, r, cur, pos, ks) && Files(t.contents, log, t.keyType)
    requires cur in t.nodes && pos < |t.nodes[cur].keys| == |t.nodes[cur].values| && t.nodes[cur].keys[pos].HasType(t.keyType)
    ensures var k := t.nodes[cur].keys[pos];
      && (!r.AboveFrom(k) ==> Scanned(t, r, cur, pos + 1, ks))
      && (r.Contains(k) ==> Scanned(t, r, cur, pos + 1, ks + [k]))
      && (r.Contains(k) ==> Gather(log, ks + [k]) == Gather(log, ks) + t.nodes[cur].values[pos])
      && (!r.BelowTo(k) ==> Complete(t, r, ks))
  {
    assert NodeOk(t, cur);
    var k := t.nodes[cur].keys[pos];
    if !r.AboveFrom(k) { ScanSkip(t, r, cur, pos, ks); }
    if r.Contains(k) {
      ScanTake(t, r, cur, pos, ks);
      GatherSnoc(log, ks, k);
    }
    if !r.BelowTo(k) { ScanStop(t, r, cur, pos, ks); }
  }

  lemma ScanLeafEnd(t: Tree, r: Range, j: nat, ks: seq<Value>)
    requires WellFormed(t, NoPending) && InScope(t, r) && j < |t.leaves|
    requires t.leaves[j] in t.nodes && Scanned(t, r, t.leaves[j], |t.nodes[t.leaves[j]].keys|, ks)
    ensures if j + 1 < |t.leaves| then Scanned(t, r, t.leaves[j + 1], 0, ks) else Complete(t, r, ks)
  {
    if j + 1 < |t.leaves| {
      ScanNextLeaf(t, r, j, ks);
    } else {
      ScanLastLeaf(t, r, ks);
    }
  }

  lemma TypedLikeKey(keys: seq<Value>, key: Value, t: Type)
    requires Increasing(keys) && Typed(keys, t) && key.HasType(t)
    ensures Nondecreasing(keys) && forall i :: 0 <= i < |keys| ==> SameType(keys[i], key)
  {
    hide Rank;
  }

  /** What the lower bound of a key in its leaf says about the key. */
  lemma KeyAt(leaf: Node, at: Info, contents: map<Value, seq<Tid>>, log: seq<Entry>, t: Type, key: Value, pos: nat)
    requires |leaf.values| == |leaf.keys| && Increasing(leaf.keys) && Exact(leaf, at, contents) && Covers(at, key) && Files(contents, log, t)
    requires pos <= |leaf.keys|
    requires forall i :: 0 <= i < pos ==> Rank(leaf.keys[i]) < Rank(key)
    requires forall i :: pos <= i < |leaf.keys| ==> Rank(leaf.keys[i]) >= Rank(key)
    ensures TidsOf(log, key) == if pos < |leaf.keys| && leaf.keys[pos] == key then leaf.values[pos] else []
  {
    hide Rank, TidsOf;
    if pos < |leaf.keys| && leaf.keys[pos] == key {
      assert contents[leaf.keys[pos]] == leaf.values[pos];
    } else {
      assert pos < |leaf.keys| ==> forall i :: pos < i < |leaf.keys| ==> Rank(leaf.keys[pos]) < Rank(leaf.keys[i]);
      assert key !in leaf.keys;
    }
  }
}
