/** The byte layout of a B+tree page: writing a node into a page buffer and reading it back. */
module BTreeCodec {
  import opened Values
  import opened Bytes
  import opened Pages
  import opened KeyCodec
  import opened BTreeShape
  import opened BTreePages

  const NODE_MAGIC: uint32 := 0x424E4F44
  const IS_LEAF_OFF: nat := 14
  const PARENT_OFF: nat := 18
  const LEFT_SIB_OFF: nat := 22
  const RIGHT_SIB_OFF: nat := 26
  const KEY_COUNT_OFF: nat := 30

  /** The casts in the encoder lose nothing on this node. */
  ghost predicate Encodable(n: Node, t: Type) {
    && IsInt32(n.parentPageID) && IsInt32(n.leftSibPageID) && IsInt32(n.rightSibPageID)
    && (forall i :: 0 <= i < |n.children| ==> IsInt32(n.children[i]))
    && Typed(n.keys, t)
    && (if n.isLeaf then |n.values| == |n.keys| && n.children == [] else |n.children| == |n.keys| + 1 && n.values == [])
  }

  // ----- Encoding -----

  function EncodeKeys(keys: seq<Value>): seq<byte> {
    if keys == [] then [] else EncodeKey(keys[0]) + EncodeKeys(keys[1..])
  }

  function EncodeTids(tids: seq<Tid>): (b: seq<byte>)
    ensures |b| == |tids| * TID_SIZE
  {
    if tids == [] then [] else EncodeTid(tids[0]) + EncodeTids(tids[1..])
  }

  function EncodeValues(values: seq<seq<Tid>>): seq<byte> {
    if values == [] then []
    else BigEndian(|values[0]| % 0x1_0000_0000, 4) + EncodeTids(values[0]) + EncodeValues(values[1..])
  }

  function EncodeChildren(children: seq<int>): (b: seq<byte>)
    requires forall i :: 0 <= i < |children| ==> IsInt32(children[i])
    ensures |b| == |children| * 4
  {
    if children == [] then []
    else
      assert IsInt32(children[0]);
      var first: int32 := children[0];
      BigEndian(Int32ToUint(first), 4) + EncodeChildren(children[1..])
  }

  ghost function EncodeBody(n: Node, t: Type): seq<byte>
    requires Encodable(n, t)
  {
    EncodeKeys(n.keys) + if n.isLeaf then EncodeValues(n.values) else EncodeChildren(n.children)
  }

  lemma {:induction false} EncodeKeysSnoc(keys: seq<Value>, k: Value)
    ensures EncodeKeys(keys + [k]) == EncodeKeys(keys) + EncodeKey(k)
  {
    if keys == [] {
      assert [k][1..] == [];
    } else {
      assert (keys + [k])[1..] == keys[1..] + [k];
      EncodeKeysSnoc(keys[1..], k);
    }
  }

  lemma {:induction false} EncodeKeysLength(keys: seq<Value>)
    ensures |EncodeKeys(keys)| == KeysSize(keys)
  {
    if keys != [] {
      var m := |keys| - 1;
      assert keys == keys[..m] + [keys[m]];
      EncodeKeysSnoc(keys[..m], keys[m]);
      EncodeKeysLength(keys[..m]);
    }
  }

  lemma {:induction false} EncodeTidsSnoc(tids: seq<Tid>, t: Tid)
    ensures EncodeTids(tids + [t]) == EncodeTids(tids) + EncodeTid(t)
  {
    if tids == [] {
      assert [t][1..] == [];
    } else {
      assert (tids + [t])[1..] == tids[1..] + [t];
      EncodeTidsSnoc(tids[1..], t);
    }
  }

  lemma {:induction false} EncodeValuesSnoc(values: seq<seq<Tid>>, v: seq<Tid>)
    ensures EncodeValues(values + [v]) == EncodeValues(values) + BigEndian(|v| % 0x1_0000_0000, 4) + EncodeTids(v)
  {
    if values == [] {
      assert [v][1..] == [];
    } else {
      assert (values + [v])[1..] == values[1..] + [v];
      EncodeValuesSnoc(values[1..], v);
    }
  }

  lemma {:induction false} EncodeValuesLength(values: seq<seq<Tid>>)
    ensures |EncodeValues(values)| == ValuesSize(values)
  {
    if values != [] {
      var m := |values| - 1;
      assert values == values[..m] + [values[m]];
      EncodeValuesSnoc(values[..m], values[m]);
      EncodeValuesLength(values[..m]);
    }
  }

  lemma {:induction false} EncodeChildrenSnoc(children: seq<int>, c: int)
    requires forall i :: 0 <= i < |children| ==> IsInt32(children[i])
    requires IsInt32(c)
    ensures EncodeChildren(children + [c]) == EncodeChildren(children) + BigEndian(Int32ToUint(c), 4)
  {
    if children == [] {
      assert [c][1..] == [];
    } else {
      assert (children + [c])[1..] == children[1..] + [c];
      EncodeChildrenSnoc(children[1..], c);
    }
  }

  /** The encoding of the keys and of what follows them ends at `NodeSize`. */
  lemma EncodedSize(n: Node, t: Type)
    requires Encodable(n, t)
    ensures NODE_DATA_START + |EncodeBody(n, t)| == NodeSize(n)
  {
    EncodeKeysLength(n.keys);
    EncodeValuesLength(n.values);
  }

  // ----- Decoding; None stands for an index out of the page, which panics -----

  datatype Parsed<T> = Parsed(value: T, off: nat)

  function DecodeKey(s: seq<byte>, off: nat, t: Type): (r: Option<Parsed<Value>>)
    ensures r.Some? ==> r.value.off <= |s| && r.value.value.HasType(t)
  {
    match t
    case INT64 =>
      if off + 8 > |s| then None
      else Some(Parsed(Int64(UintToInt64(GetUint64(s, off))), off + 8))
    case VARCHAR =>
      if off + 2 > |s| then None
      else
        var len := GetUint16(s, off);
        if off + 2 + len > |s| then None
        else Some(Parsed(Varchar(s[off + 2..off + 2 + len]), off + 2 + len))
  }

  function DecodeKeys(s: seq<byte>, off: nat, count: nat, t: Type): Option<Parsed<seq<Value>>>
    decreases count
  {
    if count == 0 then Some(Parsed([], off))
    else
      match DecodeKey(s, off, t)
      case None => None
      case Some(first) =>
        match DecodeKeys(s, first.off, count - 1, t)
        case None => None
        case Some(rest) => Some(Parsed([first.value] + rest.value, rest.off))
  }

  function DecodeTids(s: seq<byte>, off: nat, count: nat): Option<Parsed<seq<Tid>>>
    decreases count
  {
    if count == 0 then Some(Parsed([], off))
    else if off + TID_SIZE > |s| then None
    else
      var tid := Tid(UintToInt32(GetUint32(s, off)), UintToInt16(GetUint16(s, off + 4)));
      match DecodeTids(s, off + TID_SIZE, count - 1)
      case None => None
      case Some(rest) => Some(Parsed([tid] + rest.value, rest.off))
  }

  function DecodeValues(s: seq<byte>, off: nat, count: nat): Option<Parsed<seq<seq<Tid>>>>
    decreases count
  {
    if count == 0 then Some(Parsed([], off))
    else if off + 4 > |s| then None
    else
      match DecodeTids(s, off + 4, GetUint32(s, off))
      case None => None
      case Some(first) =>
        match DecodeValues(s, first.off, count - 1)
        case None => None
        case Some(rest) => Some(Parsed([first.value] + rest.value, rest.off))
  }

  function DecodeChildren(s: seq<byte>, off: nat, count: nat): Option<Parsed<seq<int>>>
    decreases count
  {
    if count == 0 then Some(Parsed([], off))
    else if off + 4 > |s| then None
    else
      match DecodeChildren(s, off + 4, count - 1)
      case None => None
      case Some(rest) => Some(Parsed([UintToInt32(GetUint32(s, off))] + rest.value, rest.off))
  }

  function DecodeNode(s: seq<byte>, pageID: int, t: Type): Option<Node>
    requires |s| == PAGE_SIZE
  {
    var isLeaf := s[IS_LEAF_OFF] == 1;
    var count: nat := GetUint32(s, KEY_COUNT_OFF);
    match DecodeKeys(s, NODE_DATA_START, count, t)
    case None => None
    case Some(keys) =>
      var parent := UintToInt32(GetUint32(s, PARENT_OFF));
      var left := UintToInt32(GetUint32(s, LEFT_SIB_OFF));
      var right := UintToInt32(GetUint32(s, RIGHT_SIB_OFF));
      if isLeaf then
        match DecodeValues(s, keys.off, count)
        case None => None
        case Some(values) => Some(Node(pageID, true, parent, left, right, keys.value, values.value, []))
      else
        match DecodeChildren(s, keys.off, count + 1)
        case None => None
        case Some(children) => Some(Node(pageID, false, parent, left, right, keys.value, [], children.value))
  }

  // ----- The page holds an encoding -----

  /** The bytes of page `s` that the encoder writes for `n`. Bytes 0-9 and 15-17 are not among them. */
  ghost predicate Holds(s: seq<byte>, n: Node, t: Type)
    requires Encodable(n, t)
  {
    && |s| == PAGE_SIZE && NodeSize(n) <= PAGE_SIZE
    && s[10..14] == BigEndian(NODE_MAGIC, 4)
    && s[IS_LEAF_OFF] == (if n.isLeaf then 1 else 0)
    && s[PARENT_OFF..PARENT_OFF + 4] == BigEndian(Int32ToUint(n.parentPageID), 4)
    && s[LEFT_SIB_OFF..LEFT_SIB_OFF + 4] == BigEndian(Int32ToUint(n.leftSibPageID), 4)
    && s[RIGHT_SIB_OFF..RIGHT_SIB_OFF + 4] == BigEndian(Int32ToUint(n.rightSibPageID), 4)
    && s[KEY_COUNT_OFF..KEY_COUNT_OFF + 4] == BigEndian(|n.keys| % 0x1_0000_0000, 4)
    && s[NODE_DATA_START..NodeSize(n)] == EncodeBody(n, t)
  }

  lemma SplitAt(s: seq<byte>, off: nat, a: seq<byte>, b: seq<byte>)
    requires off + |a| + |b| <= |s| && s[off..off + |a| + |b|] == a + b
    ensures s[off..off + |a|] == a && s[off + |a|..off + |a| + |b|] == b
  {
    var all := s[off..off + |a| + |b|];
    assert s[off..off + |a|] == all[..|a|];
    assert s[off + |a|..off + |a| + |b|] == all[|a|..];
  }

  lemma DecodeEncodedKey(s: seq<byte>, off: nat, k: Value, t: Type)
    requires k.HasType(t) && |s| <= 0xFFFF
    requires off + |EncodeKey(k)| <= |s| && s[off..off + |EncodeKey(k)|] == EncodeKey(k)
    ensures DecodeKey(s, off, t) == Some(Parsed(k, off + |EncodeKey(k)|))
  {
    match k {
      case Int64(n) => GetWritten64(s, off, Int64ToUint(n));
      case Varchar(str) =>
        SplitAt(s, off, BigEndian(|str| % 0x1_0000, 2), str);
        GetWritten16(s, off, |str| % 0x1_0000);
    }
  }

  lemma {:induction false} DecodeEncodedKeys(s: seq<byte>, off: nat, keys: seq<Value>, t: Type)
    requires Typed(keys, t) && |s| <= 0xFFFF
    requires off + |EncodeKeys(keys)| <= |s| && s[off..off + |EncodeKeys(keys)|] == EncodeKeys(keys)
    ensures DecodeKeys(s, off, |keys|, t) == Some(Parsed(keys, off + |EncodeKeys(keys)|))
    decreases keys
  {
    hide DecodeKey, EncodeKey, KeySize;
    if keys != [] {
      SplitAt(s, off, EncodeKey(keys[0]), EncodeKeys(keys[1..]));
      DecodeEncodedKey(s, off, keys[0], t);
      DecodeEncodedKeys(s, off + |EncodeKey(keys[0])|, keys[1..], t);
      assert keys == [keys[0]] + keys[1..];
    }
  }

  lemma {:induction false} DecodeEncodedTids(s: seq<byte>, off: nat, tids: seq<Tid>)
    requires off + |EncodeTids(tids)| <= |s| && s[off..off + |EncodeTids(tids)|] == EncodeTids(tids)
    ensures DecodeTids(s, off, |tids|) == Some(Parsed(tids, off + |EncodeTids(tids)|))
    decreases tids
  {
    if tids != [] {
      SplitAt(s, off, EncodeTid(tids[0]), EncodeTids(tids[1..]));
      SplitAt(s, off, BigEndian(Int32ToUint(tids[0].pageID), 4), BigEndian(Int16ToUint(tids[0].slotID), 2));
      GetWritten32(s, off, Int32ToUint(tids[0].pageID));
      GetWritten16(s, off + 4, Int16ToUint(tids[0].slotID));
      DecodeEncodedTids(s, off + 6, tids[1..]);
      assert tids == [tids[0]] + tids[1..];
    }
  }

  lemma {:induction false} DecodeEncodedValues(s: seq<byte>, off: nat, values: seq<seq<Tid>>)
    requires |s| <= 0xFFFF
    requires off + |EncodeValues(values)| <= |s| && s[off..off + |EncodeValues(values)|] == EncodeValues(values)
    ensures DecodeValues(s, off, |values|) == Some(Parsed(values, off + |EncodeValues(values)|))
    decreases values
  {
    hide EncodeTids, DecodeTids, BigEndian, GetUint32;
    if values != [] {
      var v := values[0];
      var count := BigEndian(|v| % 0x1_0000_0000, 4);
      var rest := EncodeValues(values[1..]);
      assert EncodeValues(values) == count + (EncodeTids(v) + rest);
      SplitAt(s, off, count, EncodeTids(v) + rest);
      SplitAt(s, off + 4, EncodeTids(v), rest);
      GetWritten32(s, off, |v| % 0x1_0000_0000);
      DecodeEncodedTids(s, off + 4, v);
      DecodeEncodedValues(s, off + 4 + |EncodeTids(v)|, values[1..]);
      assert values == [v] + values[1..];
    }
  }

  lemma {:induction false} DecodeEncodedChildren(s: seq<byte>, off: nat, children: seq<int>)
    requires forall i :: 0 <= i < |children| ==> IsInt32(children[i])
    requires off + |EncodeChildren(children)| <= |s| && s[off..off + |EncodeChildren(children)|] == EncodeChildren(children)
    ensures DecodeChildren(s, off, |children|) == Some(Parsed(children, off + |EncodeChildren(children)|))
    decreases children
  {
    if children != [] {
      var first: int32 := children[0];
      SplitAt(s, off, BigEndian(Int32ToUint(first), 4), EncodeChildren(children[1..]));
      GetWritten32(s, off, Int32ToUint(first));
      DecodeEncodedChildren(s, off + 4, children[1..]);
      assert children == [children[0]] + children[1..];
    }
  }

  lemma DecodeBody(s: seq<byte>, n: Node, t: Type)
    requires Encodable(n, t) && |s| <= 0xFFFF && NodeSize(n) <= |s|
    requires s[NODE_DATA_START..NodeSize(n)] == EncodeBody(n, t)
    ensures DecodeKeys(s, NODE_DATA_START, |n.keys|, t) == Some(Parsed(n.keys, NODE_DATA_START + |EncodeKeys(n.keys)|))
    ensures var keysEnd := NODE_DATA_START + |EncodeKeys(n.keys)|;
      if n.isLeaf then DecodeValues(s, keysEnd, |n.values|) == Some(Parsed(n.values, NodeSize(n)))
      else DecodeChildren(s, keysEnd, |n.children|) == Some(Parsed(n.children, NodeSize(n)))
  {
    hide EncodeKeys, EncodeValues, EncodeChildren, KeysSize, ValuesSize, DecodeKeys, DecodeValues, DecodeChildren;
    EncodedSize(n, t);
    var keysEnd := NODE_DATA_START + |EncodeKeys(n.keys)|;
    if n.isLeaf {
      SplitAt(s, NODE_DATA_START, EncodeKeys(n.keys), EncodeValues(n.values));
      DecodeEncodedKeys(s, NODE_DATA_START, n.keys, t);
      DecodeEncodedValues(s, keysEnd, n.values);
    } else {
      SplitAt(s, NODE_DATA_START, EncodeKeys(n.keys), EncodeChildren(n.children));
      DecodeEncodedKeys(s, NODE_DATA_START, n.keys, t);
      DecodeEncodedChildren(s, keysEnd, n.children);
    }
  }

  /** Reading a page that holds an encoding gives the node back, whatever the other bytes are. */
  lemma ReadAfterWrite(s: seq<byte>, n: Node, t: Type)
    requires Encodable(n, t) && Holds(s, n, t)
    ensures DecodeNode(s, n.pageID, t) == Some(n)
  {
    hide EncodeKeys, EncodeValues, EncodeChildren, KeysSize, ValuesSize, DecodeKeys, DecodeValues, DecodeChildren,
      EncodeBody, BigEndian, FromBigEndian, GetUint32;
    KeyCountBound(n.keys);
    GetWritten32(s, PARENT_OFF, Int32ToUint(n.parentPageID));
    GetWritten32(s, LEFT_SIB_OFF, Int32ToUint(n.leftSibPageID));
    GetWritten32(s, RIGHT_SIB_OFF, Int32ToUint(n.rightSibPageID));
    GetWritten32(s, KEY_COUNT_OFF, |n.keys| % 0x1_0000_0000);
    DecodeBody(s, n, t);
  }

  lemma {:induction false} KeyCountBound(keys: seq<Value>)
    ensures |keys| <= KeysSize(keys)
  {
    if keys != [] {
      KeyCountBound(keys[..|keys| - 1]);
    }
  }

  // ----- The page buffer -----

  lemma SpliceMore(base: seq<byte>, off: nat, out: seq<byte>, b: seq<byte>)
    requires off + |out| + |b| <= |base|
    ensures Splice(Splice(base, off, out), off + |out|, b) == Splice(base, off, out + b)
  {
  }

  ghost predicate HeaderHolds(s: seq<byte>, n: Node)
    requires IsInt32(n.parentPageID) && IsInt32(n.leftSibPageID) && IsInt32(n.rightSibPageID)
  {
    && |s| == PAGE_SIZE
    && s[10..14] == BigEndian(NODE_MAGIC, 4)
    && s[IS_LEAF_OFF] == (if n.isLeaf then 1 else 0)
    && s[PARENT_OFF..PARENT_OFF + 4] == BigEndian(Int32ToUint(n.parentPageID), 4)
    && s[LEFT_SIB_OFF..LEFT_SIB_OFF + 4] == BigEndian(Int32ToUint(n.leftSibPageID), 4)
    && s[RIGHT_SIB_OFF..RIGHT_SIB_OFF + 4] == BigEndian(Int32ToUint(n.rightSibPageID), 4)
    && s[KEY_COUNT_OFF..KEY_COUNT_OFF + 4] == BigEndian(|n.keys| % 0x1_0000_0000, 4)
  }

  /** The bytes that the encoder never touches. */
  ghost predicate Untouched(a: seq<byte>, b: seq<byte>, end: nat)
    requires |a| == |b| == PAGE_SIZE && end <= PAGE_SIZE
  {
    forall i :: 0 <= i < PAGE_SIZE && (i < 10 || 15 <= i < 18 || end <= i) ==> a[i] == b[i]
  }

  method WriteHeader(buf: array<byte>, n: Node)
    requires buf.Length == PAGE_SIZE && IsInt32(n.parentPageID) && IsInt32(n.leftSibPageID) && IsInt32(n.rightSibPageID)
    modifies buf
    ensures HeaderHolds(buf[..], n) && Untouched(old(buf[..]), buf[..], NODE_DATA_START)
  {
    hide BigEndian;
    PutBytes(buf, 10, BigEndian(NODE_MAGIC, 4));
    buf[IS_LEAF_OFF] := if n.isLeaf then 1 else 0;
    PutBytes(buf, PARENT_OFF, BigEndian(Int32ToUint(n.parentPageID), 4));
    PutBytes(buf, LEFT_SIB_OFF, BigEndian(Int32ToUint(n.leftSibPageID), 4));
    PutBytes(buf, RIGHT_SIB_OFF, BigEndian(Int32ToUint(n.rightSibPageID), 4));
    PutBytes(buf, KEY_COUNT_OFF, BigEndian(|n.keys| % 0x1_0000_0000, 4));
  }

  method WriteKeys(buf: array<byte>, n: Node) returns (off: nat)
    requires buf.Length == PAGE_SIZE && NODE_DATA_START + |EncodeKeys(n.keys)| <= PAGE_SIZE
    modifies buf
    ensures off == NODE_DATA_START + |EncodeKeys(n.keys)|
    ensures buf[..] == Splice(old(buf[..]), NODE_DATA_START, EncodeKeys(n.keys))
  {
    hide EncodeKey;
    off := NODE_DATA_START;
    var i := 0;
    ghost var base := buf[..];
    while i < |n.keys|
      invariant 0 <= i <= |n.keys|
      invariant off == NODE_DATA_START + |EncodeKeys(n.keys[..i])| && off <= PAGE_SIZE
      invariant buf[..] == Splice(base, NODE_DATA_START, EncodeKeys(n.keys[..i]))
    {
      EncodeKeysSnoc(n.keys[..i], n.keys[i]);
      assert n.keys[..i + 1] == n.keys[..i] + [n.keys[i]];
      KeysPrefix(n.keys, i + 1);
      SpliceMore(base, NODE_DATA_START, EncodeKeys(n.keys[..i]), EncodeKey(n.keys[i]));
      PutBytes(buf, off, EncodeKey(n.keys[i]));
      off := off + |EncodeKey(n.keys[i])|;
      i := i + 1;
    }
    assert n.keys[..i] == n.keys;
  }

  lemma {:induction false} KeysPrefix(keys: seq<Value>, i: nat)
    requires i <= |keys|
    ensures |EncodeKeys(keys[..i])| <= |EncodeKeys(keys)|
    decreases |keys| - i
  {
    if i < |keys| {
      EncodeKeysSnoc(keys[..i], keys[i]);
      assert keys[..i + 1] == keys[..i] + [keys[i]];
      KeysPrefix(keys, i + 1);
    } else {
      assert keys[..i] == keys;
    }
  }

  method WriteValues(buf: array<byte>, start: nat, values: seq<seq<Tid>>) returns (off: nat)
    requires buf.Length == PAGE_SIZE && start + |EncodeValues(values)| <= PAGE_SIZE
    modifies buf
    ensures off == start + |EncodeValues(values)|
    ensures buf[..] == Splice(old(buf[..]), start, EncodeValues(values))
  {
    hide EncodeTid, EncodeTids, EncodeValues, BigEndian, Splice;
    off := start;
    var i := 0;
    ghost var base := buf[..];
    NoValuesSpliced(base, start);
    assert values[..0] == [];
    while i < |values|
      invariant 0 <= i <= |values|
      invariant off == start + |EncodeValues(values[..i])| && off <= PAGE_SIZE
      invariant buf[..] == Splice(base, start, EncodeValues(values[..i]))
    {
      var tids := values[i];
      var count := BigEndian(|tids| % 0x1_0000_0000, 4);
      ghost var out := EncodeValues(values[..i]);
      EncodeValuesSnoc(values[..i], tids);
      assert values[..i + 1] == values[..i] + [tids];
      ValuesPrefix(values, i + 1);
      assert EncodeValues(values[..i + 1]) == out + (count + EncodeTids(tids));
      SpliceMore(base, start, out, count);
      PutBytes(buf, off, count);
      off := off + 4;
      SpliceMore(base, start, out + count, EncodeTids(tids));
      off := WriteTids(buf, off, tids);
      assert (out + count) + EncodeTids(tids) == out + (count + EncodeTids(tids));
      i := i + 1;
    }
    assert values[..i] == values;
  }

  lemma NothingSpliced(base: seq<byte>, off: nat)
    requires off <= |base|
    ensures Splice(base, off, EncodeTids([])) == base
  {
  }

  lemma NoValuesSpliced(base: seq<byte>, off: nat)
    requires off <= |base|
    ensures EncodeValues([]) == [] && Splice(base, off, EncodeValues([])) == base
  {
  }

  lemma TidBytes(t: Tid)
    ensures EncodeTid(t) == BigEndian(Int32ToUint(t.pageID), 4) + BigEndian(Int16ToUint(t.slotID), 2)
  {
  }

  method WriteTids(buf: array<byte>, start: nat, tids: seq<Tid>) returns (off: nat)
    requires buf.Length == PAGE_SIZE && start + |EncodeTids(tids)| <= PAGE_SIZE
    modifies buf
    ensures off == start + |EncodeTids(tids)|
    ensures buf[..] == Splice(old(buf[..]), start, EncodeTids(tids))
  {
    hide BigEndian, Splice, EncodeTids, EncodeTid;
    off := start;
    var j := 0;
    ghost var base := buf[..];
    NothingSpliced(base, start);
    assert tids[..0] == [];
    while j < |tids|
      invariant 0 <= j <= |tids|
      invariant off == start + j * TID_SIZE
      invariant buf[..] == Splice(base, start, EncodeTids(tids[..j]))
    {
      TidBytes(tids[j]);
      var page := BigEndian(Int32ToUint(tids[j].pageID), 4);
      var slot := BigEndian(Int16ToUint(tids[j].slotID), 2);
      ghost var out := EncodeTids(tids[..j]);
      EncodeTidsSnoc(tids[..j], tids[j]);
      assert tids[..j + 1] == tids[..j] + [tids[j]];
      SpliceMore(base, start, out, page);
      PutBytes(buf, off, page);
      SpliceMore(base, start, out + page, slot);
      PutBytes(buf, off + 4, slot);
      assert (out + page) + slot == out + (page + slot);
      off := off + TID_SIZE;
      j := j + 1;
    }
    assert tids[..j] == tids;
  }

  method WriteChildren(buf: array<byte>, start: nat, children: seq<int>) returns (off: nat)
    requires forall i :: 0 <= i < |children| ==> IsInt32(children[i])
    requires buf.Length == PAGE_SIZE && start + |EncodeChildren(children)| <= PAGE_SIZE
    modifies buf
    ensures off == start + |EncodeChildren(children)|
    ensures buf[..] == Splice(old(buf[..]), start, EncodeChildren(children))
  {
    hide BigEndian;
    off := start;
    var i := 0;
    ghost var base := buf[..];
    while i < |children|
      invariant 0 <= i <= |children|
      invariant off == start + i * 4
      invariant buf[..] == Splice(base, start, EncodeChildren(children[..i]))
    {
      var child: int32 := children[i];
      EncodeChildrenSnoc(children[..i], children[i]);
      assert children[..i + 1] == children[..i] + [children[i]];
      SpliceMore(base, start, EncodeChildren(children[..i]), BigEndian(Int32ToUint(child), 4));
      PutBytes(buf, off, BigEndian(Int32ToUint(child), 4));
      off := off + 4;
      i := i + 1;
    }
    assert children[..i] == children;
  }

  lemma {:induction false} ValuesPrefix(values: seq<seq<Tid>>, i: nat)
    requires i <= |values|
    ensures |EncodeValues(values[..i])| <= |EncodeValues(values)|
    decreases |values| - i
  {
    if i < |values| {
      EncodeValuesSnoc(values[..i], values[i]);
      assert values[..i + 1] == values[..i] + [values[i]];
      ValuesPrefix(values, i + 1);
    } else {
      assert values[..i] == values;
    }
  }

  /** Writes `n` into its page buffer. A node whose encoding passes the end of the page panics. */
  method WriteNode(buf: array<byte>, n: Node, ghost t: Type) returns (off: nat)
    requires buf.Length == PAGE_SIZE && Encodable(n, t) && NodeSize(n) <= PAGE_SIZE
    modifies buf
    ensures off == NodeSize(n)
    ensures Holds(buf[..], n, t) && DecodeNode(buf[..], n.pageID, t) == Some(n)
    ensures Untouched(old(buf[..]), buf[..], NodeSize(n))
  {
    hide EncodeKeys, EncodeValues, EncodeChildren, KeysSize, ValuesSize, BigEndian, DecodeNode;
    EncodedSize(n, t);
    WriteHeader(buf, n);
    ghost var base := buf[..];
    off := WriteKeys(buf, n);
    ghost var keysEnd := off;
    SpliceMore(base, NODE_DATA_START, EncodeKeys(n.keys), if n.isLeaf then EncodeValues(n.values) else EncodeChildren(n.children));
    if n.isLeaf {
      off := WriteValues(buf, off, n.values);
    } else {
      off := WriteChildren(buf, off, n.children);
    }
    assert buf[..] == Splice(base, NODE_DATA_START, EncodeBody(n, t));
    HeldAfterHeader(base, buf[..], n, t);
    ReadAfterWrite(buf[..], n, t);
  }

  lemma HeldAfterHeader(base: seq<byte>, s: seq<byte>, n: Node, t: Type)
    requires Encodable(n, t) && NodeSize(n) <= PAGE_SIZE && HeaderHolds(base, n)
    requires NODE_DATA_START + |EncodeBody(n, t)| == NodeSize(n)
    requires s == Splice(base, NODE_DATA_START, EncodeBody(n, t))
    ensures Holds(s, n, t) && Untouched(base, s, NodeSize(n))
  {
    hide EncodeBody, NodeSize, BigEndian;
  }

  /** Reads the node of page `pageID`; a page whose counts run past its end panics. */
  method ReadNode(buf: array<byte>, pageID: int, t: Type) returns (node: Node)
    requires buf.Length == PAGE_SIZE && DecodeNode(buf[..], pageID, t).Some?
    ensures Some(node) == DecodeNode(buf[..], pageID, t)
  {
    hide GetUint32, DecodeKeys, DecodeValues, DecodeChildren;
    var isLeaf := buf[IS_LEAF_OFF] == 1;
    var keyCount: nat := GetUint32(buf[..], KEY_COUNT_OFF);
    var parent := UintToInt32(GetUint32(buf[..], PARENT_OFF));
    var left := UintToInt32(GetUint32(buf[..], LEFT_SIB_OFF));
    var right := UintToInt32(GetUint32(buf[..], RIGHT_SIB_OFF));
    var keys, off := ReadKeys(buf, keyCount, t);
    if isLeaf {
      var values := ReadValues(buf, off, keyCount);
      return Node(pageID, true, parent, left, right, keys, values, []);
    }
    var children := ReadChildren(buf, off, keyCount + 1);
    return Node(pageID, false, parent, left, right, keys, [], children);
  }

  method ReadKeys(buf: array<byte>, keyCount: nat, t: Type) returns (keys: seq<Value>, off: nat)
    requires DecodeKeys(buf[..], NODE_DATA_START, keyCount, t).Some?
    ensures Some(Parsed(keys, off)) == DecodeKeys(buf[..], NODE_DATA_START, keyCount, t)
  {
    hide DecodeKey;
    ghost var s := buf[..];
    ghost var whole := DecodeKeys(s, NODE_DATA_START, keyCount, t).value;
    keys, off := [], NODE_DATA_START;
    var i: nat := 0;
    while i < keyCount
      invariant i <= keyCount && DecodeKeys(s, off, keyCount - i, t).Some?
      invariant var rest := DecodeKeys(s, off, keyCount - i, t).value;
        keys + rest.value == whole.value && rest.off == whole.off
    {
      var key := DecodeKey(buf[..], off, t);
      keys := keys + [key.value.value];
      off := key.value.off;
      i := i + 1;
    }
    assert keys + [] == keys;
  }

  method ReadValues(buf: array<byte>, start: nat, count: nat) returns (values: seq<seq<Tid>>)
    requires DecodeValues(buf[..], start, count).Some?
    ensures values == DecodeValues(buf[..], start, count).value.value
  {
    hide GetUint32, DecodeTids;
    ghost var s := buf[..];
    ghost var whole := DecodeValues(s, start, count).value;
    values := [];
    var off := start;
    var i: nat := 0;
    while i < count
      invariant i <= count && DecodeValues(s, off, count - i).Some?
      invariant var rest := DecodeValues(s, off, count - i).value;
        values + rest.value == whole.value && rest.off == whole.off
    {
      var tidCount := GetUint32(buf[..], off);
      var tids;
      tids, off := ReadTids(buf, off + 4, tidCount);
      values := values + [tids];
      i := i + 1;
    }
    assert values + [] == values;
  }

  method ReadTids(buf: array<byte>, start: nat, count: nat) returns (tids: seq<Tid>, off: nat)
    requires DecodeTids(buf[..], start, count).Some?
    ensures Some(Parsed(tids, off)) == DecodeTids(buf[..], start, count)
  {
    hide GetUint32, GetUint16;
    ghost var s := buf[..];
    ghost var whole := DecodeTids(s, start, count).value;
    tids := [];
    off := start;
    var j: nat := 0;
    while j < count
      invariant j <= count && DecodeTids(s, off, count - j).Some?
      invariant var rest := DecodeTids(s, off, count - j).value;
        tids + rest.value == whole.value && rest.off == whole.off
    {
      tids := tids + [Tid(UintToInt32(GetUint32(buf[..], off)), UintToInt16(GetUint16(buf[..], off + 4)))];
      off := off + TID_SIZE;
      j := j + 1;
    }
    assert tids + [] == tids;
  }

  method ReadChildren(buf: array<byte>, start: nat, count: nat) returns (children: seq<int>)
    requires DecodeChildren(buf[..], start, count).Some?
    ensures children == DecodeChildren(buf[..], start, count).value.value
  {
    hide GetUint32;
    ghost var s := buf[..];
    ghost var whole := DecodeChildren(s, start, count).value;
    children := [];
    var off := start;
    var i: nat := 0;
    while i < count
      invariant i <= count && DecodeChildren(s, off, count - i).Some?
      invariant var rest := DecodeChildren(s, off, count - i).value;
        children + rest.value == whole.value && rest.off == whole.off
    {
      children := children + [UintToInt32(GetUint32(buf[..], off))];
      off := off + 4;
      i := i + 1;
    }
    assert children + [] == children;
  }
}
