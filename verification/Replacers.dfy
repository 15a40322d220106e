/** The two replacement policies behind one contract. */
module Replacers {
  import opened Values
  import opened BufferModel

  /** No two slots stand for the same page. */
  ghost predicate Distinct(slots: seq<BufferSlot>) {
    forall i, j :: 0 <= i < j < |slots| ==> slots[i].key != slots[j].key
  }

  /** `held` maps each slot's key to that slot, and nothing else. */
  ghost predicate Lists(slots: seq<BufferSlot>, held: map<PageKey, BufferSlot>) {
    && Distinct(slots)
    && (forall i :: 0 <= i < |slots| ==> slots[i].key in held && held[slots[i].key] == slots[i])
    && (forall k :: k in held ==> exists i :: 0 <= i < |slots| && slots[i].key == k)
  }

  /** `slots` without the slot of `key`, in the same order. */
  function Without(slots: seq<BufferSlot>, key: PageKey): (r: seq<BufferSlot>)
    ensures forall i :: 0 <= i < |r| ==> r[i].key != key && r[i] in slots
  {
    if slots == [] then []
    else if slots[0].key == key then Without(slots[1..], key)
    else [slots[0]] + Without(slots[1..], key)
  }

  lemma {:induction false} WithoutAbsent(slots: seq<BufferSlot>, key: PageKey)
    requires forall i :: 0 <= i < |slots| ==> slots[i].key != key
    ensures Without(slots, key) == slots
  {
    if slots != [] {
      WithoutAbsent(slots[1..], key);
    }
  }

  lemma {:induction false} WithoutAt(slots: seq<BufferSlot>, key: PageKey, at: nat)
    requires at < |slots| && slots[at].key == key
    requires forall i :: 0 <= i < |slots| && i != at ==> slots[i].key != key
    ensures Without(slots, key) == slots[..at] + slots[at + 1..]
  {
    if at == 0 {
      WithoutAbsent(slots[1..], key);
    } else {
      WithoutAt(slots[1..], key, at - 1);
      assert slots[..at] == [slots[0]] + slots[1..][..at - 1];
      assert slots[at + 1..] == slots[1..][at..];
    }
  }

  lemma ListsFacts(slots: seq<BufferSlot>, held: map<PageKey, BufferSlot>)
    requires Lists(slots, held)
    ensures Distinct(slots)
    ensures slots == [] <==> held == map[]
    ensures forall i :: 0 <= i < |slots| ==> slots[i].key in held && held[slots[i].key] == slots[i]
  {
    if held != map[] {
      var k :| k in held;
    }
    if slots != [] {
      assert slots[0].key in held;
    }
  }

  lemma ListsMinus(slots: seq<BufferSlot>, held: map<PageKey, BufferSlot>, at: nat)
    requires Lists(slots, held) && at < |slots|
    ensures Lists(slots[..at] + slots[at + 1..], held - {slots[at].key})
  {
    var rest := slots[..at] + slots[at + 1..];
    forall i | 0 <= i < |rest| ensures rest[i] == slots[if i < at then i else i + 1] {}
    forall k | k in held - {slots[at].key} ensures exists i :: 0 <= i < |rest| && rest[i].key == k {
      var i :| 0 <= i < |slots| && slots[i].key == k;
      assert rest[if i < at then i else i - 1].key == k;
    }
  }

  lemma ListsPlus(slots: seq<BufferSlot>, held: map<PageKey, BufferSlot>, slot: BufferSlot)
    requires Lists(slots, held) && slot.key !in held
    ensures Lists(slots + [slot], held[slot.key := slot])
  {
    var all := slots + [slot];
    var held' := held[slot.key := slot];
    forall k | k in held' ensures exists i :: 0 <= i < |all| && all[i].key == k {
      if k == slot.key {
        assert all[|slots|].key == k;
      } else {
        var i :| 0 <= i < |slots| && slots[i].key == k;
        assert all[i].key == k;
      }
    }
  }

  // ----- Second chance -----

  /** The ring read from the hand on. */
  function Circular(ring: seq<BufferSlot>, head: nat): seq<BufferSlot>
    requires head <= |ring|
  {
    ring[head..] + ring[..head]
  }

  /** How many slots from the front of `order` are referenced before the first that is not. */
  function Skipped(order: seq<BufferSlot>, ref: set<PageKey>): (n: nat)
    ensures n <= |order|
    ensures forall i :: 0 <= i < n ==> order[i].key in ref
    ensures n < |order| ==> order[n].key !in ref
  {
    if order == [] || order[0].key !in ref then 0 else 1 + Skipped(order[1..], ref)
  }

  lemma {:induction false} SkippedIs(order: seq<BufferSlot>, ref: set<PageKey>, n: nat)
    requires n <= |order| && forall i :: 0 <= i < n ==> order[i].key in ref
    requires n < |order| ==> order[n].key !in ref
    ensures Skipped(order, ref) == n
  {
    if n > 0 {
      SkippedIs(order[1..], ref, n - 1);
    }
  }

  /** The key of the first unreferenced slot in `order`, or of the first one when all are referenced. */
  function SecondChance(order: seq<BufferSlot>, ref: set<PageKey>): Option<PageKey> {
    if order == [] then None
    else
      var skipped := Skipped(order, ref);
      Some(order[if skipped == |order| then 0 else skipped].key)
  }

  /** Referencing another slot changes nothing. */
  lemma ReferencedStays(order: seq<BufferSlot>, ref: set<PageKey>, key: PageKey)
    requires SecondChance(order, ref).Some? && SecondChance(order, ref).value != key
    ensures SecondChance(order, ref + {key}) == SecondChance(order, ref)
  {
    SkippedIs(order, ref + {key}, Skipped(order, ref));
  }

  /** Nor does another slot that joins, referenced, behind the first one. */
  lemma JoinedStays(front: seq<BufferSlot>, back: seq<BufferSlot>, slot: BufferSlot, ref: set<PageKey>)
    requires front != [] && SecondChance(front + back, ref).value != slot.key
    ensures SecondChance(front + [slot] + back, ref + {slot.key}) == SecondChance(front + back, ref)
  {
    var order, order' := front + back, front + [slot] + back;
    var n := Skipped(order, ref);
    var n' := if n == |order| then |order'| else if n < |front| then n else n + 1;
    forall i | 0 <= i < n' ensures order'[i].key in ref + {slot.key} {
      assert order'[i] == if i < |front| then order[i] else if i == |front| then slot else order[i - 1];
    }
    SkippedIs(order', ref + {slot.key}, n');
  }

  /** The key of every slot in `slots`. */
  function KeySet(slots: seq<BufferSlot>): set<PageKey> {
    set i | 0 <= i < |slots| :: slots[i].key
  }

  /** The hand has passed over the first `j` slots of `order`, all referenced. */
  ghost predicate Turned(order: seq<BufferSlot>, ref0: set<PageKey>, now: seq<BufferSlot>, ref: set<PageKey>, j: nat) {
    && j <= |order| && now == order[j..] + order[..j]
    && (forall i :: 0 <= i < j ==> order[i].key in ref0)
    && ref == ref0 - KeySet(order[..j])
  }

  lemma TurnsStart(ring: seq<BufferSlot>, head: nat, ref: set<PageKey>)
    requires head <= |ring|
    ensures Turned(Circular(ring, head), ref, Circular(ring, head), ref, 0)
  {
    assert KeySet(Circular(ring, head)[..0]) == {};
  }

  lemma PassesOver(order: seq<BufferSlot>, ref0: set<PageKey>, now: seq<BufferSlot>, ref: set<PageKey>, j: nat)
    requires Turned(order, ref0, now, ref, j) && now != [] && now[0].key in ref
    ensures j < |order| && Turned(order, ref0, now[1..] + [now[0]], ref - {now[0].key}, j + 1)
  {
    if j == |order| {
      assert false;
    } else {
      assert now[0] == order[j] && order[..j + 1] == order[..j] + [order[j]];
      forall k ensures k in KeySet(order[..j + 1]) <==> k in KeySet(order[..j]) || k == order[j].key {
        if k in KeySet(order[..j]) {
          var i :| 0 <= i < j && order[..j][i].key == k;
          assert order[..j + 1][i].key == k;
        }
        if k == order[j].key {
          assert order[..j + 1][j].key == k;
        }
      }
    }
  }

  lemma Stops(order: seq<BufferSlot>, ref0: set<PageKey>, now: seq<BufferSlot>, ref: set<PageKey>, j: nat)
    requires Turned(order, ref0, now, ref, j) && now != [] && now[0].key !in ref && Distinct(order)
    ensures order != [] && Skipped(order, ref0) == j && ref == ref0 - KeySet(order[..j])
    ensures now[0] == order[if j == |order| then 0 else j]
    ensures now[1..] == if j == |order| then order[1..] else order[j + 1..] + order[..j]
  {
    if j < |order| {
      assert now[0] == order[j];
      forall i | 0 <= i < j ensures order[..j][i].key != order[j].key {}
      assert order[j].key !in KeySet(order[..j]);
    }
    SkippedIs(order, ref0, j);
  }

  class ClockReplacer {
    var ring: seq<BufferSlot>
    var head: nat
    var inRing: set<PageKey>
    var ref: set<PageKey>
    ghost var held: map<PageKey, BufferSlot>

    ghost predicate Valid()
      reads this
    {
      && Lists(ring, held) && held.Keys == inRing && ref <= inRing
      && (head < |ring| || head == 0)
    }

    constructor ()
      ensures Valid() && held == map[] && ring == []
    {
      ring, head, inRing, ref, held := [], 0, {}, {}, map[];
    }

    lemma NextStays(slot: BufferSlot)
      requires Valid()
      ensures NextVictim().Some? && NextVictim() != Some(slot.key) ==>
        && SecondChance(Circular(ring, head), ref + {slot.key}) == NextVictim()
        && SecondChance(Circular(ring + [slot], head), ref + {slot.key}) == NextVictim()
    {
      if NextVictim().Some? && NextVictim() != Some(slot.key) {
        ReferencedStays(Circular(ring, head), ref, slot.key);
        JoinedStays(ring[head..], ring[..head], slot, ref);
        assert Circular(ring + [slot], head) == ring[head..] + [slot] + ring[..head];
      }
    }

    method Push(slot: BufferSlot)
      requires Valid()
      modifies this
      ensures Valid()
      ensures held == if slot.pinned || slot.key in old(held) then old(held) else old(held)[slot.key := slot]
      ensures ref == if slot.pinned then old(ref) else old(ref) + {slot.key}
      ensures head == old(head)
      ensures ring == if slot.pinned || slot.key in old(held) then old(ring) else old(ring) + [slot]
      ensures old(NextVictim()).Some? && old(NextVictim()) != Some(slot.key) ==> NextVictim() == old(NextVictim())
    {
      hide Lists, Skipped, SecondChance;
      ListsFacts(ring, held);
      NextStays(slot);
      if slot.pinned {
        return;
      }
      var key := slot.key;
      if key !in inRing {
        ListsPlus(ring, held, slot);
        inRing := inRing + {key};
        ring := ring + [slot];
        held := held[key := slot];
      }
      ref := ref + {key};
    }

    /** Removes the slot of `key`; the others keep their circular order from the hand. */
    method Delete(key: PageKey)
      requires Valid()
      modifies this
      ensures Valid() && held == old(held) - {key} && ref == old(ref) - {key}
      ensures Circular(ring, head) == Without(old(Circular(ring, head)), key)
    {
      hide Without, Circular;
      if key !in inRing {
        CircularAbsent(ring, held, head, key);
        return;
      }
      inRing := inRing - {key};
      ref := ref - {key};
      var i := 0;
      while ring[i].key != key
        invariant 0 <= i < |ring| && forall j :: 0 <= j < i ==> ring[j].key != key
        invariant exists j :: i <= j < |ring| && ring[j].key == key
        decreases |ring| - i
      {
        i := i + 1;
      }
      ListsMinus(ring, held, i);
      CircularWithout(ring, head, i);
      held := held - {key};
      ring := ring[..i] + ring[i + 1..];
      if |ring| == 0 {
        head := 0;
      } else if i < head {
        head := head - 1;
      } else if head >= |ring| {
        head := 0;
      }
    }

    /** The first unreferenced slot in circular order from the hand, or the slot at the hand when all are referenced. */
    ghost function NextVictim(): Option<PageKey>
      requires Valid()
      reads this
    {
      SecondChance(Circular(ring, head), ref)
    }

    /** Gives every referenced slot under the hand a second chance: the victim is the first
        unreferenced slot in circular order, or the slot at the hand when all are referenced;
        exactly the slots passed over lose their reference bit. */
    method PickVictim() returns (victim: Option<BufferSlot>)
      requires Valid()
      modifies this
      ensures Valid()
      ensures old(NextVictim()) == if victim.None? then None else Some(victim.value.key)
      ensures victim.None? <==> old(held) == map[]
      ensures victim.None? ==> held == old(held)
      ensures var order, skipped := old(Circular(ring, head)), old(Skipped(Circular(ring, head), ref));
        victim.Some? ==>
          && victim.value == order[if skipped == |order| then 0 else skipped]
          && ref == old(ref) - KeySet(order[..skipped])
          && Circular(ring, head) == (if skipped == |order| then order[1..] else order[skipped + 1..] + order[..skipped])
      ensures victim.Some? ==>
        var key := victim.value.key;
        key in old(held) && old(held)[key] == victim.value && held == old(held) - {key}
    {
      hide Distinct, Circular, Turned, KeySet, Skipped, Lists;
      ListsFacts(ring, held);
      ghost var order, ref0 := Circular(ring, head), ref;
      TurnsStart(ring, head, ref);
      ghost var j: nat := 0;
      DistinctCircular(ring, head);
      while |ring| > 0
        invariant ring == old(ring) && held == old(held) && inRing == old(inRing)
        invariant j <= |ring| && head <= |ring|
        invariant |ring| == 0 ==> head == old(head) && ref == ref0
        invariant Turned(order, ref0, Circular(ring, head), ref, j)
        decreases |ring| - j
      {
        CircularTurns(ring, 0);
        if head >= |ring| {
          head := 0;
        }
        var slot := ring[head];
        var key := slot.key;
        ghost var now := Circular(ring, head);
        CircularTurns(ring, head);
        if key in ref {
          PassesOver(order, ref0, now, ref, j);
          ref := ref - {key};
          head := head + 1;
          j := j + 1;
          continue;
        }
        Stops(order, ref0, now, ref, j);
        TakeHead();
        return Some(slot);
      }
      NoTurns(ring, head);
      return None;
    }

    /** Cuts the slot under the hand out of the ring; the hand then stands on the next one. */
    method TakeHead()
      requires Lists(ring, held) && held.Keys == inRing && ref <= inRing && head < |ring| && ring[head].key !in ref
      modifies `ring, `head, `inRing, `held
      ensures Valid() && held == old(held) - {old(ring[head]).key}
      ensures Circular(ring, head) == old(Circular(ring, head))[1..]
      ensures old(ring[head]).key in old(held) && old(held)[old(ring[head]).key] == old(ring[head])
    {
      hide Distinct, Circular, Lists;
      ListsFacts(ring, held);
      CircularTurns(ring, head);
      CircularCut(ring, head);
      ListsMinus(ring, held, head);
      var key := ring[head].key;
      inRing := inRing - {key};
      held := held - {key};
      ring := ring[..head] + ring[head + 1..];
      if head >= |ring| {
        head := 0;
      }
    }
  }

  lemma NoTurns(ring: seq<BufferSlot>, head: nat)
    requires head <= |ring| == 0
    ensures Circular(ring, head) == []
  {
  }

  lemma CircularTurns(ring: seq<BufferSlot>, head: nat)
    requires head < |ring|
    ensures |Circular(ring, head)| == |ring| && Circular(ring, head)[0] == ring[head]
    ensures Circular(ring, head + 1) == Circular(ring, head)[1..] + [Circular(ring, head)[0]]
    ensures Circular(ring, |ring|) == Circular(ring, 0)
  {
  }

  lemma CircularAbsent(ring: seq<BufferSlot>, held: map<PageKey, BufferSlot>, head: nat, key: PageKey)
    requires Lists(ring, held) && key !in held && head <= |ring|
    ensures Without(Circular(ring, head), key) == Circular(ring, head)
  {
    WithoutAbsent(Circular(ring, head), key);
  }

  lemma CircularWithout(ring: seq<BufferSlot>, head: nat, at: nat)
    requires Distinct(ring) && at < |ring| && (head < |ring| || head == 0)
    ensures var rest := ring[..at] + ring[at + 1..];
      var head' := if |rest| == 0 then 0 else if at < head then head - 1 else if head >= |rest| then 0 else head;
      Circular(rest, head') == Without(Circular(ring, head), ring[at].key)
  {
    var order := Circular(ring, head);
    var place := if at < head then |ring| - head + at else at - head;
    assert order[place] == ring[at];
    forall i | 0 <= i < |order| && i != place ensures order[i].key != ring[at].key {
      assert order[i] == ring[if i < |ring| - head then head + i else i - (|ring| - head)];
    }
    WithoutAt(order, ring[at].key, place);
    CircularAround(ring, head, at);
  }

  /** Cutting one slot out of the ring cuts it out of the circular order. */
  lemma CircularAround(ring: seq<BufferSlot>, head: nat, at: nat)
    requires at < |ring| && (head < |ring| || head == 0)
    ensures var rest := ring[..at] + ring[at + 1..];
      var head' := if |rest| == 0 then 0 else if at < head then head - 1 else if head >= |rest| then 0 else head;
      var order, place := Circular(ring, head), if at < head then |ring| - head + at else at - head;
      Circular(rest, head') == order[..place] + order[place + 1..]
  {
    var rest := ring[..at] + ring[at + 1..];
    var order := Circular(ring, head);
    if at < head {
      var place := |ring| - head + at;
      assert order[..place] == ring[head..] + ring[..at];
      assert order[place + 1..] == ring[at + 1..head];
      assert rest[head - 1..] == ring[head..] && rest[..head - 1] == ring[..at] + ring[at + 1..head];
    } else {
      var place := at - head;
      assert ring[head..][..place] == ring[head..at];
      assert ring[head..][place + 1..] == ring[at + 1..];
      assert order[..place] == ring[head..][..place];
      assert order[place + 1..] == ring[head..][place + 1..] + ring[..head];
      if head < |rest| {
        assert rest[head..] == ring[head..at] + ring[at + 1..] && rest[..head] == ring[..head];
      } else {
        assert rest == ring[..head] + ring[at + 1..];
      }
    }
  }

  lemma CircularCut(ring: seq<BufferSlot>, head: nat)
    requires head < |ring|
    ensures var rest := ring[..head] + ring[head + 1..];
      Circular(rest, if head >= |rest| then 0 else head) == Circular(ring, head)[1..]
  {
    CircularAround(ring, head, head);
  }

  lemma DistinctCircular(ring: seq<BufferSlot>, head: nat)
    requires Distinct(ring) && head <= |ring|
    ensures Distinct(Circular(ring, head))
  {
    var order := Circular(ring, head);
    forall i | 0 <= i < |order| ensures order[i] == ring[if i < |ring| - head then head + i else i - (|ring| - head)] {}
  }

  // ----- Least recently used -----

  lemma {:induction false} WithoutLists(slots: seq<BufferSlot>, held: map<PageKey, BufferSlot>, key: PageKey)
    requires Lists(slots, held)
    ensures Lists(Without(slots, key), held - {key})
  {
    if at: nat :| at < |slots| && slots[at].key == key {
      WithoutAt(slots, key, at);
      ListsMinus(slots, held, at);
    } else {
      WithoutAbsent(slots, key);
      assert key !in held;
      assert held - {key} == held;
    }
  }

  /** Slots stand in the order of their last push, all of them before `now`. */
  ghost predicate InPushOrder(slots: seq<BufferSlot>, stamp: map<PageKey, nat>, now: nat) {
    && (forall i :: 0 <= i < |slots| ==> slots[i].key in stamp && stamp[slots[i].key] < now)
    && (forall i, j :: 0 <= i < j < |slots| ==> stamp[slots[i].key] < stamp[slots[j].key])
  }

  lemma {:induction false} WithoutKeepsOrder(slots: seq<BufferSlot>, stamp: map<PageKey, nat>, now: nat, key: PageKey)
    requires InPushOrder(slots, stamp, now)
    ensures InPushOrder(Without(slots, key), stamp, now)
  {
    if slots != [] {
      WithoutFirst(slots, stamp, now);
      WithoutKeepsOrder(slots[1..], stamp, now, key);
      assert forall x :: x in slots[1..] ==> x.key in stamp && stamp[slots[0].key] < stamp[x.key];
      if slots[0].key != key {
        FirstKeepsOrder(slots[0], Without(slots[1..], key), stamp, now);
      }
    }
  }

  lemma FirstKeepsOrder(first: BufferSlot, rest: seq<BufferSlot>, stamp: map<PageKey, nat>, now: nat)
    requires InPushOrder(rest, stamp, now) && first.key in stamp && stamp[first.key] < now
    requires forall i :: 0 <= i < |rest| ==> rest[i].key in stamp && stamp[first.key] < stamp[rest[i].key]
    ensures InPushOrder([first] + rest, stamp, now)
  {
  }

  lemma Pushed(slots: seq<BufferSlot>, held: map<PageKey, BufferSlot>, stamp: map<PageKey, nat>, now: nat, slot: BufferSlot)
    requires Lists(slots, held) && InPushOrder(slots, stamp, now)
    ensures Lists(Without(slots, slot.key) + [slot], held[slot.key := slot])
    ensures InPushOrder(Without(slots, slot.key) + [slot], stamp[slot.key := now], now + 1)
    ensures slot.key !in held ==> Without(slots, slot.key) == slots
  {
    hide Lists, InPushOrder, Without;
    var key := slot.key;
    WithoutLists(slots, held, key);
    ListsPlus(Without(slots, key), held - {key}, slot);
    assert (held - {key})[key := slot] == held[key := slot];
    if key !in held {
      ListsFacts(slots, held);
      assert forall i :: 0 <= i < |slots| ==> slots[i].key in held;
      WithoutAbsent(slots, key);
    }
    WithoutKeepsOrder(slots, stamp, now, key);
    StampedLast(Without(slots, key), stamp, now, slot);
  }

  lemma StampedLast(slots: seq<BufferSlot>, stamp: map<PageKey, nat>, now: nat, slot: BufferSlot)
    requires InPushOrder(slots, stamp, now) && forall i :: 0 <= i < |slots| ==> slots[i].key != slot.key
    ensures InPushOrder(slots + [slot], stamp[slot.key := now], now + 1)
  {
  }

  lemma Popped(slots: seq<BufferSlot>, held: map<PageKey, BufferSlot>, stamp: map<PageKey, nat>, now: nat)
    requires Lists(slots, held) && InPushOrder(slots, stamp, now) && slots != []
    ensures slots[0].key in held && held[slots[0].key] == slots[0]
    ensures Lists(slots[1..], held - {slots[0].key}) && InPushOrder(slots[1..], stamp, now)
    ensures slots[0].key in stamp
    ensures forall k :: k in held - {slots[0].key} ==> k in stamp && stamp[slots[0].key] < stamp[k]
  {
    hide Lists, InPushOrder;
    ListsFacts(slots, held);
    ListsMinus(slots, held, 0);
    assert slots[..0] + slots[1..] == slots[1..];
    WithoutFirst(slots, stamp, now);
    forall k | k in held - {slots[0].key} ensures k in stamp && stamp[slots[0].key] < stamp[k] {
      var i := PlaceOf(slots, held, k);
    }
  }

  lemma PlaceOf(slots: seq<BufferSlot>, held: map<PageKey, BufferSlot>, key: PageKey) returns (i: nat)
    requires Lists(slots, held) && key in held
    ensures i < |slots| && slots[i].key == key
  {
    i :| i < |slots| && slots[i].key == key;
  }

  lemma WithoutFirst(slots: seq<BufferSlot>, stamp: map<PageKey, nat>, now: nat)
    requires InPushOrder(slots, stamp, now) && slots != []
    ensures InPushOrder(slots[1..], stamp, now) && slots[0].key in stamp
    ensures forall i :: 1 <= i < |slots| ==> slots[i].key in stamp && stamp[slots[0].key] < stamp[slots[i].key]
  {
  }

  lemma FirstWithout(slots: seq<BufferSlot>, key: PageKey)
    ensures slots != [] && slots[0].key != key ==> Without(slots, key) != [] && Without(slots, key)[0] == slots[0]
  {
  }

  class LruReplacer {
    /** Front first; each element stands for its slot's key. */
    var linkedList: seq<BufferSlot>
    var lru: map<PageKey, BufferSlot>
    /** When each key was last pushed. */
    ghost var stamp: map<PageKey, nat>
    ghost var now: nat

    ghost predicate Valid()
      reads this
    {
      Lists(linkedList, lru) && InPushOrder(linkedList, stamp, now)
    }

    constructor ()
      ensures Valid() && lru == map[]
    {
      linkedList, lru, stamp, now := [], map[], map[], 0;
    }

    method Push(slot: BufferSlot)
      requires Valid()
      modifies this
      ensures Valid() && lru == if slot.pinned then old(lru) else old(lru)[slot.key := slot]
      ensures stamp == if slot.pinned then old(stamp) else old(stamp)[slot.key := old(now)]
      ensures now >= old(now)
      ensures old(NextVictim()).Some? && old(NextVictim()) != Some(slot.key) ==> NextVictim() == old(NextVictim())
    {
      hide Lists, InPushOrder, Without;
      FirstWithout(linkedList, slot.key);
      if slot.pinned {
        return;
      }
      var key := slot.key;
      Pushed(linkedList, lru, stamp, now, slot);
      linkedList := if key in lru then Without(linkedList, key) + [slot] else linkedList + [slot];
      lru := lru[key := slot];
      stamp := stamp[key := now];
      now := now + 1;
    }

    method Delete(key: PageKey)
      requires Valid()
      modifies this
      ensures Valid() && lru == old(lru) - {key} && stamp == old(stamp)
    {
      hide Lists, InPushOrder, Without;
      WithoutLists(linkedList, lru, key);
      WithoutKeepsOrder(linkedList, stamp, now, key);
      if key in lru {
        linkedList := Without(linkedList, key);
        lru := lru - {key};
      }
    }

    ghost function NextVictim(): Option<PageKey>
      reads this
    {
      if linkedList == [] then None else Some(linkedList[0].key)
    }

    /** The victim is the slot whose last push is the oldest. */
    method PickVictim() returns (victim: Option<BufferSlot>)
      requires Valid()
      modifies this
      ensures Valid() && stamp == old(stamp)
      ensures old(NextVictim()) == if victim.None? then None else Some(victim.value.key)
      ensures victim.None? <==> old(lru) == map[]
      ensures victim.None? ==> lru == old(lru)
      ensures victim.Some? ==>
        var key := victim.value.key;
        && key in old(lru) && old(lru)[key] == victim.value && lru == old(lru) - {key}
        && key in stamp
        && forall k :: k in lru ==> k in stamp && stamp[key] < stamp[k]
    {
      hide Lists, InPushOrder;
      ListsFacts(linkedList, lru);
      if linkedList == [] {
        return None;
      }
      var slot := linkedList[0];
      Popped(linkedList, lru, stamp, now);
      linkedList := linkedList[1..];
      lru := lru - {slot.key};
      return Some(slot);
    }
  }

  // ----- The contract both policies meet -----

  datatype Replacer = Lru(lru: LruReplacer) | Clock(clock: ClockReplacer)
  {
    function Repr(): set<object> {
      if Lru? then {lru} else {clock}
    }

    ghost predicate Valid()
      reads Repr()
    {
      if Lru? then lru.Valid() else clock.Valid()
    }

    /** The evictable slots. */
    ghost function Held(): map<PageKey, BufferSlot>
      reads Repr()
    {
      if Lru? then lru.lru else clock.held
    }

    /** The key the policy would give up next. */
    ghost function NextVictim(): Option<PageKey>
      requires Valid()
      reads Repr()
    {
      if Lru? then lru.NextVictim() else clock.NextVictim()
    }

    /** The next victim is one of the held slots, if there are any. */
    lemma NextIsHeld()
      requires Valid()
      ensures NextVictim().None? <==> Held() == map[]
      ensures NextVictim().Some? ==> NextVictim().value in Held()
    {
      if Lru? {
        ListsFacts(lru.linkedList, lru.lru);
      } else {
        ListsFacts(clock.ring, clock.held);
        assert forall i :: 0 <= i < |clock.ring| ==> Circular(clock.ring, clock.head)[i] in clock.ring;
      }
    }

    method Push(slot: BufferSlot)
      requires Valid() && (slot.key in Held() ==> Held()[slot.key] == slot)
      modifies Repr()
      ensures Valid() && Held() == if slot.pinned then old(Held()) else old(Held())[slot.key := slot]
      ensures old(NextVictim()).Some? && old(NextVictim()) != Some(slot.key) ==> NextVictim() == old(NextVictim())
    {
      match this
      case Lru(l) => l.Push(slot);
      case Clock(c) =>
        assert slot.key in c.held ==> c.held == c.held[slot.key := slot];
        c.Push(slot);
    }

    method Delete(key: PageKey)
      requires Valid()
      modifies Repr()
      ensures Valid() && Held() == old(Held()) - {key}
    {
      match this
      case Lru(l) => l.Delete(key);
      case Clock(c) => c.Delete(key);
    }

    method PickVictim() returns (victim: Option<BufferSlot>)
      requires Valid()
      modifies Repr()
      ensures Valid()
      ensures old(NextVictim()) == if victim.None? then None else Some(victim.value.key)
      ensures victim.None? <==> old(Held()) == map[]
      ensures victim.None? ==> Held() == old(Held())
      ensures victim.Some? ==>
        var key := victim.value.key;
        key in old(Held()) && old(Held())[key] == victim.value && Held() == old(Held()) - {key}
    {
      match this
      case Lru(l) => victim := l.PickVictim();
      case Clock(c) => victim := c.PickVictim();
    }
  }
}
