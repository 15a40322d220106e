/** Encoded sizes of B+tree pages. */
module BTreePages {
  import opened Values
  import opened BTreeShape
  import opened Pages
  import opened KeyCodec

  const PAGE_CAPACITY: nat := PAGE_SIZE - HEADER_SIZE
  const NODE_DATA_START: nat := HEADER_SIZE + 24

  function KeysSize(keys: seq<Value>): nat {
    if keys == [] then 0 else KeysSize(keys[..|keys| - 1]) + KeySize(keys[|keys| - 1])
  }

  function ValuesSize(values: seq<seq<Tid>>): nat {
    if values == [] then 0 else ValuesSize(values[..|values| - 1]) + 4 + |values[|values| - 1]| * TID_SIZE
  }

  /** The page offset at which the encoding of `n` ends. */
  function NodeSize(n: Node): nat {
    NODE_DATA_START + KeysSize(n.keys) + if n.isLeaf then ValuesSize(n.values) else |n.children| * 4
  }

  /** The size of an internal page with these keys. */
  function InnerSize(keys: seq<Value>): nat {
    NODE_DATA_START + KeysSize(keys) + (|keys| + 1) * 4
  }

  /** Every page is on disk, so none is larger than a disk page. */
  ghost predicate PagesFit(nodes: map<int, Node>) {
    forall p :: p in nodes ==> NodeSize(nodes[p]) <= PAGE_SIZE
  }

  /** The size of a leaf holding `count` TIDs of `key` and nothing else. */
  function SingleKeySize(key: Value, count: nat): nat {
    NODE_DATA_START + KeySize(key) + 4 + count * TID_SIZE
  }

  lemma SingleKeyLeaf(n: Node)
    requires n.isLeaf && |n.keys| == |n.values| == 1
    ensures NodeSize(n) == SingleKeySize(n.keys[0], |n.values[0]|)
  {
    assert n.keys[..|n.keys| - 1] == [] && n.values[..|n.values| - 1] == [];
    assert KeysSize(n.keys) == KeySize(n.keys[0]);
    assert ValuesSize(n.values) == 4 + |n.values[0]| * TID_SIZE;
  }
}
