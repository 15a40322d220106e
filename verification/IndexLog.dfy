/** What an index means: the log of its inserts, and the answers that log determines. */
module IndexLog {
  import opened Values

  /** One `Insert(key, tid)` call. */
  datatype Entry = Entry(key: Value, tid: Tid)

  predicate LogHasType(log: seq<Entry>, t: Type) {
    forall i :: 0 <= i < |log| ==> log[i].key.HasType(t)
  }

  /** The TIDs inserted under `key`, in insertion order. */
  function TidsOf(log: seq<Entry>, key: Value): seq<Tid> {
    if log == [] then []
    else
      var before := TidsOf(log[..|log| - 1], key);
      var last := log[|log| - 1];
      if last.key == key then before + [last.tid] else before
  }

  lemma TidsOfSnoc(log: seq<Entry>, e: Entry, key: Value)
    ensures TidsOf(log + [e], key) == TidsOf(log, key) + if e.key == key then [e.tid] else []
  {
    assert (log + [e])[..|log|] == log;
  }

  /** A key has TIDs exactly when some entry of the log carries it. */
  lemma {:induction false} TidsOfNonempty(log: seq<Entry>, key: Value)
    ensures TidsOf(log, key) != [] <==> exists i :: 0 <= i < |log| && log[i].key == key
  {
    if log != [] {
      TidsOfNonempty(log[..|log| - 1], key);
      if exists i :: 0 <= i < |log| && log[i].key == key {
        var i :| 0 <= i < |log| && log[i].key == key;
        if i < |log| - 1 {
          assert log[..|log| - 1][i].key == key;
        }
      }
    }
  }

  /** `contents` files every entry of `log` under its key. */
  ghost predicate Files(contents: map<Value, seq<Tid>>, log: seq<Entry>, t: Type) {
    && LogHasType(log, t)
    && (forall k :: k in contents <==> TidsOf(log, k) != [])
    && (forall k :: k in contents ==> contents[k] == TidsOf(log, k))
  }

  lemma FilesSnoc(contents: map<Value, seq<Tid>>, log: seq<Entry>, t: Type, e: Entry)
    requires Files(contents, log, t) && e.key.HasType(t)
    ensures Files(contents[e.key := (if e.key in contents then contents[e.key] else []) + [e.tid]], log + [e], t)
    ensures TidsOf(log + [e], e.key) == TidsOf(log, e.key) + [e.tid]
    ensures |TidsOf(log, e.key)| == if e.key in contents then |contents[e.key]| else 0
  {
    forall k ensures TidsOf(log + [e], k) == TidsOf(log, k) + if e.key == k then [e.tid] else [] {
      TidsOfSnoc(log, e, k);
    }
  }

  ghost function KeysOf(log: seq<Entry>): set<Value> {
    set i | 0 <= i < |log| :: log[i].key
  }

  /** A search range; an absent bound is open. */
  datatype Range = Range(from: Option<Value>, fromInclusive: bool, to: Option<Value>, toInclusive: bool)
  {
    predicate HasType(t: Type) {
      && (from.Some? ==> from.value.HasType(t))
      && (to.Some? ==> to.value.HasType(t))
    }

    predicate AboveFrom(k: Value)
      requires from.Some? ==> SameType(k, from.value)
    {
      from.Some? ==> Compare(k, from.value) > 0 || (fromInclusive && k == from.value)
    }

    predicate BelowTo(k: Value)
      requires to.Some? ==> SameType(k, to.value)
    {
      to.Some? ==> Compare(k, to.value) < 0 || (toInclusive && k == to.value)
    }

    predicate Contains(k: Value)
      requires from.Some? ==> SameType(k, from.value)
      requires to.Some? ==> SameType(k, to.value)
    {
      AboveFrom(k) && BelowTo(k)
    }
  }

  ghost predicate StrictlyAscending(ks: seq<Value>) {
    forall i, j :: 0 <= i < j < |ks| ==> Rank(ks[i]) < Rank(ks[j])
  }

  /** The values of `s` in ascending key order. */
  ghost function Ascending(s: set<Value>, t: Type): (ks: seq<Value>)
    requires forall k :: k in s ==> k.HasType(t)
    ensures StrictlyAscending(ks)
    ensures forall k :: k in ks <==> k in s
  {
    if s == {} then []
    else
      LeastExists(s, t);
      var least :| least in s && forall k :: k in s ==> Rank(least) <= Rank(k);
      var rest := Ascending(s - {least}, t);
      assert forall k :: k in rest ==> Rank(least) < Rank(k) by {
        forall k | k in rest ensures Rank(least) < Rank(k) { RankOrders(least, k); }
      }
      [least] + rest
  }

  lemma {:induction false} LeastExists(s: set<Value>, t: Type)
    requires s != {} && forall k :: k in s ==> k.HasType(t)
    ensures exists least :: least in s && forall k :: k in s ==> Rank(least) <= Rank(k)
  {
    var x :| x in s;
    if s == {x} {
      assert forall k :: k in s ==> Rank(x) <= Rank(k);
    } else {
      LeastExists(s - {x}, t);
      var y :| y in s - {x} && forall k :: k in s - {x} ==> Rank(y) <= Rank(k);
      var least := if Rank(x) <= Rank(y) then x else y;
      assert forall k :: k in s ==> k == x || k in s - {x};
      assert least in s && forall k :: k in s ==> Rank(least) <= Rank(k);
    }
  }

  /** Only one strictly ascending sequence lists a given set. */
  lemma {:induction false} AscendingIsUnique(ks: seq<Value>, s: set<Value>, t: Type)
    requires forall k :: k in s ==> k.HasType(t)
    requires StrictlyAscending(ks) && forall k :: k in ks <==> k in s
    ensures ks == Ascending(s, t)
  {
    var other := Ascending(s, t);
    SameAscending(ks, other);
  }

  lemma {:induction false} SameAscending(a: seq<Value>, b: seq<Value>)
    requires StrictlyAscending(a) && StrictlyAscending(b)
    requires forall k :: k in a <==> k in b
    ensures a == b
  {
    assert b != [] ==> b[0] in a;
    if a != [] {
      assert a[0] in b;
      var i :| 0 <= i < |b| && b[i] == a[0];
      var j :| 0 <= j < |a| && a[j] == b[0];
      assert a[0] == b[0];
      TailMembers(a);
      TailMembers(b);
      SameAscending(a[1..], b[1..]);
      assert a == [a[0]] + a[1..] && b == [b[0]] + b[1..];
    }
  }

  lemma TailMembers(a: seq<Value>)
    requires a != [] && StrictlyAscending(a)
    ensures StrictlyAscending(a[1..])
    ensures forall k :: k in a[1..] <==> k in a && k != a[0]
  {
    forall k | k in a && k != a[0] ensures k in a[1..] {
      var m :| 0 <= m < |a| && a[m] == k;
      assert a[1..][m - 1] == k;
    }
  }

  /** The TIDs of each key of `ks` in turn. */
  ghost function Gather(log: seq<Entry>, ks: seq<Value>): seq<Tid> {
    if ks == [] then [] else Gather(log, ks[..|ks| - 1]) + TidsOf(log, ks[|ks| - 1])
  }

  lemma GatherSnoc(log: seq<Entry>, ks: seq<Value>, k: Value)
    ensures Gather(log, ks + [k]) == Gather(log, ks) + TidsOf(log, k)
  {
    assert (ks + [k])[..|ks|] == ks;
  }

  ghost function KeysInRange(log: seq<Entry>, r: Range, t: Type): set<Value>
    requires LogHasType(log, t) && r.HasType(t)
  {
    set k | k in KeysOf(log) && k.HasType(t) && r.Contains(k)
  }

  /** The range answer: keys ascending, and each key's TIDs in insertion order. */
  ghost function RangeTids(log: seq<Entry>, r: Range, t: Type): seq<Tid>
    requires LogHasType(log, t) && r.HasType(t)
  {
    Gather(log, Ascending(KeysInRange(log, r, t), t))
  }
}
