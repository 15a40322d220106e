/** The heap buffer pool manager over either replacement policy. */
module BufferPool {
  import opened Values
  import opened BufferModel
  import opened Replacers

  import opened PoolSpec

  datatype PoolError = NoVictim | PageAlreadyInBuffer | ReadFailed | WriteFailed

  ghost function FrameOf(slot: BufferSlot): Frame
    reads slot
  {
    Frame(slot.page, slot.dirty, slot.pinned)
  }

  ghost function Frames(table: map<PageKey, BufferSlot>): (fs: map<PageKey, Frame>)
    reads table.Values
    ensures fs.Keys == table.Keys
  {
    map k | k in table :: FrameOf(table[k])
  }

  /** The replacer holds exactly the unpinned resident slots (the same objects), bar the stranded ones:
      dirty slots that were picked as victims but whose page the file manager refuses to write. */
  ghost predicate Coupled(held: map<PageKey, BufferSlot>, table: map<PageKey, BufferSlot>,
                          frames: map<PageKey, Frame>, stranded: set<PageKey>) {
    && frames.Keys == table.Keys
    && (forall k :: k in table ==> table[k].key == k)
    && (forall k :: k in held <==> k in frames && !frames[k].pinned && k !in stranded)
    && (forall k :: k in held ==> k in table && held[k] == table[k])
    && (forall k :: k in stranded ==> k in frames && Stuck(frames[k]))
  }

  /** When every resident page can be written, nothing is stranded: the coupling is exact. */
  lemma WritableIsExact(held: map<PageKey, BufferSlot>, table: map<PageKey, BufferSlot>,
                        frames: map<PageKey, Frame>, stranded: set<PageKey>)
    requires Coupled(held, table, frames, stranded) && forall k :: k in frames ==> frames[k].page.Writable()
    ensures stranded == {} && forall k :: k in held <==> k in frames && !frames[k].pinned
  {
    assert forall k :: k !in stranded;
  }

  /** Every resident slot is pinned or stranded. */
  ghost predicate NoCandidate(s: Pool, stranded: set<PageKey>) {
    forall k :: k in s.table ==> s.table[k].pinned || k in stranded
  }

  /** The slot, if any, that the replacer loses: it was picked as a victim, and its write was refused. */
  ghost predicate Strands(s: Pool, stranded: set<PageKey>, lost: set<PageKey>) {
    |lost| <= 1 && forall k :: k in lost ==> k in s.table && Stuck(s.table[k]) && k !in stranded
  }

  /** What a failed call on `key` is in the pool machine. */
  function Failure(err: PoolError, key: PageKey): Event {
    match err
    case ReadFailed => Unreadable(key)
    case PageAlreadyInBuffer => AlreadyResident(key)
    case _ => NoRoom(key)
  }

  lemma FullIsNoRoom(s: Pool, key: PageKey, poolSize: nat)
    requires key !in s.table && |s.table| >= poolSize
    ensures !RoomMade(s, s, poolSize)
    ensures !MustYield(s) ==> Step(s, s, NoRoom(key), poolSize)
  {
  }

  lemma NoneYields(held: map<PageKey, BufferSlot>, table: map<PageKey, BufferSlot>, s: Pool, stranded: set<PageKey>)
    requires Coupled(held, table, s.table, stranded)
    ensures NoCandidate(s, stranded) ==> !MustYield(s)
    ensures forall k :: k in s.table && Stuck(s.table[k]) ==> !MustYield(s)
  {
  }

  lemma ResidentIs(s: Pool, key: PageKey, poolSize: nat)
    ensures key in s.table ==> Step(s, s, AlreadyResident(key), poolSize)
  {
  }

  lemma UnreadableIs(s: Pool, mid: Pool, key: PageKey, poolSize: nat)
    requires key !in s.table && RoomMade(s, mid, poolSize) && !Readable(mid.disk, key)
    ensures Step(s, mid, Unreadable(key), poolSize)
  {
  }

  lemma LoadKeepsDisk(s: Pool, key: PageKey)
    requires Readable(s.disk, key)
    ensures Load(s, key).disk == s.disk
  {
  }

  lemma NothingLost(s: Pool, stranded: set<PageKey>)
    ensures Strands(s, stranded, {})
    ensures forall a: set<PageKey> :: a + {} == a
  {
  }

  lemma VictimLost(s: Pool, stranded: set<PageKey>, key: PageKey)
    requires key in s.table && key !in stranded
    ensures var lost := {key} - Leaves(s.table, key);
      Strands(s, stranded, lost) && (lost != {} <==> Stuck(s.table[key]))
  {
  }

  lemma LostIsResident(s: Pool, stranded: set<PageKey>, lost: set<PageKey>, key: PageKey)
    requires Strands(s, stranded, lost) && key !in s.table
    ensures key !in lost
  {
  }

  lemma StrandedIsResident(held: map<PageKey, BufferSlot>, table: map<PageKey, BufferSlot>,
                           frames: map<PageKey, Frame>, stranded: set<PageKey>)
    requires Coupled(held, table, frames, stranded)
    ensures forall k :: k !in table ==> k !in stranded && stranded - {k} == stranded
  {
  }

  lemma FramesMinus(table: map<PageKey, BufferSlot>, key: PageKey)
    ensures Frames(table - {key}) == Frames(table) - {key}
  {
  }

  lemma FramesAt(table: map<PageKey, BufferSlot>, key: PageKey)
    requires key in table
    ensures Frames(table)[key] == FrameOf(table[key])
  {
  }

  lemma FramesPlus(table: map<PageKey, BufferSlot>, slot: BufferSlot)
    ensures Frames(table[slot.key := slot]) == Frames(table)[slot.key := FrameOf(slot)]
  {
  }

  lemma HeldIsTable(held: map<PageKey, BufferSlot>, table: map<PageKey, BufferSlot>,
                    frames: map<PageKey, Frame>, stranded: set<PageKey>, key: PageKey)
    requires Coupled(held, table, frames, stranded) && key in table
    ensures key in frames && table[key].key == key && (key in held ==> held[key] == table[key])
    ensures forall k :: k in table ==> table[k].key == k
  {
  }

  lemma EvictIsFlushThenDrop(s: Pool, key: PageKey)
    requires key in s.table
    ensures Evict(s, key) == Pool(Flushed(s, key).table - {key}, Flushed(s, key).disk)
    ensures s.table[key].dirty == false ==> Flushed(s, key) == s
  {
  }

  lemma EvictKeepsRest(s: Pool, key: PageKey)
    requires key in s.table
    ensures Evict(s, key).table == s.table - {key}
  {
  }

  lemma StuckIsKept(s: Pool, key: PageKey)
    requires key in s.table && !s.table[key].page.Writable()
    ensures Flushed(s, key) == s
  {
  }

  lemma RoomThere(s: Pool, poolSize: nat)
    requires |s.table| < poolSize
    ensures RoomMade(s, s, poolSize)
  {
  }

  /** The page file manager's Read: absent pages and broken signatures are errors. */
  function ReadResult(disk: map<PageKey, seq<byte>>, key: PageKey): Option<Page> {
    if Readable(disk, key) then Some(Page(key.pageID, disk[key])) else None
  }

  /** Reading the page after making room is a fetch. */
  lemma LoadedIsFetched(s: Pool, mid: Pool, key: PageKey, poolSize: nat)
    requires key !in s.table && RoomMade(s, mid, poolSize) && Readable(mid.disk, key)
    ensures Fetched(s, Load(mid, key), key, poolSize)
  {
  }

  lemma HitIsFetched(s: Pool, key: PageKey, poolSize: nat)
    requires key in s.table
    ensures Fetched(s, s, key, poolSize)
  {
  }

  lemma CreatedIs(s: Pool, mid: Pool, key: PageKey, page: Page, poolSize: nat)
    requires key !in s.table && RoomMade(s, mid, poolSize)
    ensures Step(s, mid.(table := mid.table[key := Frame(page, false, false)]), Created(key, page), poolSize)
  {
  }

  lemma UpdatedIs(s: Pool, mid: Pool, key: PageKey, page: Page, poolSize: nat)
    requires Fetched(s, mid, key, poolSize) && key in mid.table
    ensures Step(s, mid.(table := mid.table[key := mid.table[key].(page := page, dirty := true)]), Updated(key, page), poolSize)
  {
  }

  lemma PinnedIs(s: Pool, mid: Pool, key: PageKey, poolSize: nat)
    requires Fetched(s, mid, key, poolSize) && key in mid.table
    ensures Step(s, mid.(table := mid.table[key := mid.table[key].(pinned := true)]), PinnedPage(key), poolSize)
  {
  }

  /** Flushing one more slot: what it does, and whether it fails, does not depend on the slots flushed before. */
  lemma FlushesNext(s: Pool, order: seq<PageKey>, mid: Pool, mid': Pool, key: PageKey, poolSize: nat)
    requires mid == FlushEach(s, order) && Step(mid, mid', FlushedPage(key), poolSize) && key !in order && key in s.table
    requires (forall i, j :: 0 <= i < j < |order| ==> order[i] != order[j]) && forall k :: k in order ==> k in s.table
    ensures mid' == FlushEach(s, order + [key]) && (FlushFails(mid, key) <==> FlushFails(s, key))
  {
    hide FlushEach;
    FlushEachSnoc(s, order, key);
    FlushEachCleans(s, order);
  }

  lemma AllFlushed(s: Pool, order: seq<PageKey>)
    requires forall i, j :: 0 <= i < j < |order| ==> order[i] != order[j]
    requires forall k :: k in s.table ==> k in order && !FlushFails(s, k)
    ensures var s' := FlushEach(s, order); forall k :: k in s'.table ==> !s'.table[k].dirty
  {
    hide FlushEach;
    FlushEachCleans(s, order);
  }

  lemma FramesKeys(table: map<PageKey, BufferSlot>)
    ensures Frames(table).Keys == table.Keys
  {
  }

  lemma VictimMakesRoom(s: Pool, s': Pool, poolSize: nat, victim: PageKey)
    requires |s.table| == poolSize && victim in s.table && Evictable(s.table[victim]) && s' == Evict(s, victim)
    ensures RoomMade(s, s', poolSize)
  {
  }

  lemma TouchCouples(held: map<PageKey, BufferSlot>, table: map<PageKey, BufferSlot>,
                     frames: map<PageKey, Frame>, stranded: set<PageKey>, key: PageKey, f: Frame)
    requires Coupled(held, table, frames, stranded) && key in table && !f.pinned
    ensures Coupled(held[key := table[key]], table, frames[key := f], stranded - {key})
  {
  }

  lemma PinCouples(held: map<PageKey, BufferSlot>, table: map<PageKey, BufferSlot>,
                   frames: map<PageKey, Frame>, stranded: set<PageKey>, key: PageKey, f: Frame)
    requires Coupled(held, table, frames, stranded) && key in table && f.pinned
    ensures Coupled(held - {key}, table, frames[key := f], stranded - {key})
  {
  }

  /** A picked victim leaves the table unless its write fails. */
  function Leaves(frames: map<PageKey, Frame>, key: PageKey): set<PageKey>
    requires key in frames
  {
    if Stuck(frames[key]) then {} else {key}
  }

  lemma LeaveCouples(held: map<PageKey, BufferSlot>, table: map<PageKey, BufferSlot>,
                     frames: map<PageKey, Frame>, stranded: set<PageKey>, key: PageKey)
    requires Coupled(held, table, frames, stranded) && key in held
    ensures Coupled(held - {key}, table - Leaves(frames, key), frames - Leaves(frames, key), stranded + ({key} - Leaves(frames, key)))
    ensures key in table && key in frames && held[key] == table[key] && !frames[key].pinned && key !in stranded
    ensures forall k :: k in table ==> table[k].key == k
  {
    if Stuck(frames[key]) {
      assert table - {} == table && frames - {} == frames;
    }
  }

  lemma EnterCouples(held: map<PageKey, BufferSlot>, table: map<PageKey, BufferSlot>,
                     frames: map<PageKey, Frame>, stranded: set<PageKey>, slot: BufferSlot, f: Frame)
    requires Coupled(held, table, frames, stranded) && slot.key !in table && !f.pinned
    ensures Coupled(held[slot.key := slot], table[slot.key := slot], frames[slot.key := f], stranded)
    ensures slot.key !in held
  {
  }

  lemma TableKeys(held: map<PageKey, BufferSlot>, table: map<PageKey, BufferSlot>,
                  frames: map<PageKey, Frame>, stranded: set<PageKey>)
    requires Coupled(held, table, frames, stranded)
    ensures forall k :: k in table ==> table[k].key == k
  {
  }

  lemma PinnedIsNotStranded(held: map<PageKey, BufferSlot>, table: map<PageKey, BufferSlot>,
                           frames: map<PageKey, Frame>, stranded: set<PageKey>, key: PageKey)
    requires Coupled(held, table, frames, stranded) && key in frames && frames[key].pinned
    ensures held - {key} == held && stranded - {key} == stranded
  {
    assert key !in held && key !in stranded;
  }

  lemma FlushCouples(held: map<PageKey, BufferSlot>, table: map<PageKey, BufferSlot>, s: Pool, stranded: set<PageKey>, key: PageKey)
    requires Coupled(held, table, s.table, stranded) && key in table
    ensures Coupled(held, table, Flushed(s, key).table, stranded)
  {
  }

  /** With no candidate, every resident slot is pinned or stranded; and conversely. */
  lemma NothingHeld(held: map<PageKey, BufferSlot>, table: map<PageKey, BufferSlot>, s: Pool, stranded: set<PageKey>)
    requires Coupled(held, table, s.table, stranded)
    ensures held == map[] <==> NoCandidate(s, stranded)
  {
    if forall k :: k in s.table ==> s.table[k].pinned || k in stranded {
      assert forall k :: k !in held;
    }
    if held == map[] {
      forall k | k in s.table ensures s.table[k].pinned || k in stranded { assert k !in held; }
    }
  }

  class HeapBufferPool {
    const poolSize: nat
    const replacer: Replacer
    var pageTable: map<PageKey, BufferSlot>
    /** The page files: every page written so far. */
    var disk: map<PageKey, seq<byte>>
    ghost var stranded: set<PageKey>

    ghost function View(): Pool
      reads this, pageTable.Values
    {
      Pool(Frames(pageTable), disk)
    }

    ghost predicate Valid()
      reads this, replacer.Repr(), pageTable.Values
    {
      && poolSize > 0 && replacer.Valid() && |pageTable| <= poolSize
      && Coupled(replacer.Held(), pageTable, Frames(pageTable), stranded)
    }

    /** The slot the policy gives up next cannot be written back. */
    ghost predicate VictimStuck()
      requires replacer.Valid()
      reads this, replacer.Repr(), pageTable.Values
    {
      var v := replacer.NextVictim();
      v.Some? && v.value in pageTable && Stuck(FrameOf(pageTable[v.value]))
    }

    /** A call on `key` needs room, and every resident slot is pinned or stranded. */
    ghost predicate FindsNoVictim(key: PageKey)
      reads this, pageTable.Values
    {
      key !in pageTable && |pageTable| == poolSize && NoCandidate(View(), stranded)
    }

    /** A call on `key` needs room, and the slot the policy gives up next cannot be written back. */
    ghost predicate FindsRefusal(key: PageKey)
      requires replacer.Valid()
      reads this, replacer.Repr(), pageTable.Values
    {
      key !in pageTable && |pageTable| == poolSize && VictimStuck()
    }

    constructor (poolSize: nat, replacer: Replacer, disk: map<PageKey, seq<byte>>)
      requires poolSize > 0 && replacer.Valid() && replacer.Held() == map[]
      ensures Valid() && View() == Pool(map[], disk) && pageTable == map[] && stranded == {} && this.poolSize == poolSize && this.replacer == replacer
    {
      this.poolSize, this.replacer, this.disk := poolSize, replacer, disk;
      pageTable, stranded := map[], {};
    }

    method FlushSlot(key: PageKey, slot: BufferSlot) returns (err: Option<PoolError>)
      requires key in pageTable && slot == pageTable[key] && forall k :: k in pageTable ==> pageTable[k].key == k
      requires replacer.Valid()
      modifies `disk, slot`dirty
      ensures View() == Flushed(old(View()), key)
      ensures replacer.Valid() && replacer.Held() == old(replacer.Held())
      ensures err == if old(slot.dirty) && !slot.page.Writable() then Some(WriteFailed) else None
    {
      hide ClockReplacer.Valid, LruReplacer.Valid, Replacer.Valid, Replacer.Held, Replacer.Repr;
      Apart();
      err := None;
      if slot.dirty {
        if !slot.page.Writable() {
          return Some(WriteFailed);
        }
        disk := disk[PageKey(key.fileID, slot.page.pageID) := slot.page.bytes];
        slot.dirty := false;
        assert Frames(pageTable) == old(Frames(pageTable))[key := FrameOf(slot)];
      }
    }

    /** The replacer is neither the pool nor a slot. */
    lemma Apart()
      ensures this !in replacer.Repr()
      ensures forall slot: BufferSlot :: slot !in replacer.Repr()
      ensures forall o :: o in replacer.Repr() ==> allocated(o)
    {
    }

    method DeleteEntry(key: PageKey)
      requires key in pageTable && |pageTable| <= poolSize && replacer.Valid()
      modifies `pageTable
      ensures pageTable == old(pageTable) - {key} && |pageTable| < poolSize
      ensures View() == old(View()).(table := old(View()).table - {key})
      ensures replacer.Valid() && replacer.Held() == old(replacer.Held())
    {
      hide ClockReplacer.Valid, LruReplacer.Valid, Replacer.Valid, Replacer.Held, Replacer.Repr;
      Apart();
      FramesMinus(pageTable, key);
      assert |pageTable.Keys - {key}| < |pageTable.Keys|;
      pageTable := pageTable - {key};
    }

    ghost method Strand(key: PageKey)
      requires replacer.Valid()
      modifies `stranded
      ensures stranded == old(stranded) + {key} && View() == old(View())
      ensures replacer.Valid() && replacer.Held() == old(replacer.Held())
    {
      hide ClockReplacer.Valid, LruReplacer.Valid, Replacer.Valid, Replacer.Held, Replacer.Repr;
      Apart();
      stranded := stranded + {key};
    }

    method IncrementUsage(slot: BufferSlot)
      requires replacer.Valid()
      modifies slot`usageCount
      ensures View() == old(View()) && slot.pinned == old(slot.pinned)
      ensures replacer.Valid() && replacer.Held() == old(replacer.Held())
    {
      hide ClockReplacer.Valid, LruReplacer.Valid, Replacer.Valid, Replacer.Held, Replacer.Repr;
      Apart();
      slot.usageCount := slot.usageCount + 1;
    }

    /** The second half of ensureSpace: the picked victim is written back if dirty, and leaves the table. */
    method EvictVictim(vKey: PageKey, victim: BufferSlot) returns (err: Option<PoolError>)
      requires vKey in pageTable && victim == pageTable[vKey] && forall k :: k in pageTable ==> pageTable[k].key == k
      requires |pageTable| == poolSize && !victim.pinned && replacer.Valid()
      modifies `pageTable, `disk, `stranded, victim`dirty
      ensures err.None? ==> RoomMade(old(View()), View(), poolSize) && |pageTable| < poolSize
      ensures err.Some? ==> View() == old(View())
      ensures |pageTable| <= poolSize
      ensures err == if Stuck(old(View()).table[vKey]) then Some(WriteFailed) else None
      ensures replacer.Valid() && replacer.Held() == old(replacer.Held())
      ensures pageTable == old(pageTable) - Leaves(old(View()).table, vKey)
      ensures View().table == old(View()).table - Leaves(old(View()).table, vKey)
      ensures stranded == old(stranded) + ({vKey} - Leaves(old(View()).table, vKey))
    {
      hide Frames, Evict, Flushed, RoomMade, ClockReplacer.Valid, LruReplacer.Valid, Replacer.Valid, Replacer.Held, Replacer.Repr;
      Apart();
      ghost var s := View();
      EvictIsFlushThenDrop(s, vKey);
      FramesAt(pageTable, vKey);
      if victim.dirty {
        err := FlushSlot(vKey, victim);
        if err.Some? {
          StuckIsKept(s, vKey);
          Strand(vKey);
          assert s.table - {} == s.table && pageTable - {} == pageTable;
          return;
        }
      }
      DeleteEntry(vKey);
      EvictKeepsRest(s, vKey);
      VictimMakesRoom(s, View(), poolSize, vKey);
      return None;
    }

    /** A full pool gives up the replacer's victim; there is none exactly when every slot is pinned or stranded. */
    method EvictOne() returns (err: Option<PoolError>, ghost gone: set<PageKey>, ghost lost: set<PageKey>)
      requires Valid() && |pageTable| == poolSize
      modifies `pageTable, `disk, `stranded, replacer.Repr(), pageTable.Values
      ensures Valid()
      ensures err.None? ==> RoomMade(old(View()), View(), poolSize) && |pageTable| < poolSize
      ensures err.Some? ==> View() == old(View())
      ensures err == Some(NoVictim) <==> NoCandidate(old(View()), old(stranded))
      ensures pageTable == old(pageTable) - gone && (err.None? || err == Some(NoVictim) || err == Some(WriteFailed))
      ensures stranded == old(stranded) + lost && Strands(old(View()), old(stranded), lost)
      ensures err == Some(WriteFailed) <==> lost != {}
      ensures err == Some(WriteFailed) <==> old(VictimStuck())
      ensures err.Some? ==> !MustYield(old(View()))
    {
      hide Coupled, Frames, RoomMade, MustYield, Leaves, Stuck, Strands, NoCandidate, ClockReplacer.Valid, LruReplacer.Valid, Replacer.Valid, Replacer.Held, Replacer.Repr;
      Apart();
      ghost var held, s := replacer.Held(), View();
      NothingHeld(held, pageTable, s, stranded);
      NothingLost(s, stranded);
      NoneYields(held, pageTable, s, stranded);
      ghost var next := replacer.NextVictim();
      var picked := replacer.PickVictim();
      assert View() == s;
      if picked.None? {
        return Some(NoVictim), {}, {};
      }
      var victim := picked.value;
      var vKey := victim.key;
      LeaveCouples(held, pageTable, s.table, stranded, vKey);
      FramesAt(pageTable, vKey);
      gone := Leaves(s.table, vKey);
      lost := {vKey} - gone;
      VictimLost(s, stranded, vKey);
      err := EvictVictim(vKey, victim);
    }

    /** Room for one more slot. A victim whose write is refused stays resident, and the replacer has lost it. */
    method EnsureSpace() returns (err: Option<PoolError>, ghost gone: set<PageKey>, ghost lost: set<PageKey>)
      requires Valid()
      modifies `pageTable, `disk, `stranded, replacer.Repr(), pageTable.Values
      ensures Valid()
      ensures err.None? ==> RoomMade(old(View()), View(), poolSize) && |pageTable| < poolSize
      ensures err.Some? ==> View() == old(View())
      ensures err == Some(NoVictim) <==>
        |old(pageTable)| == poolSize && NoCandidate(old(View()), old(stranded))
      ensures pageTable == old(pageTable) - gone && (err.None? || err == Some(NoVictim) || err == Some(WriteFailed))
      ensures stranded == old(stranded) + lost && Strands(old(View()), old(stranded), lost)
      ensures err == Some(WriteFailed) <==> lost != {}
      ensures err == Some(WriteFailed) <==> |old(pageTable)| == poolSize && old(VictimStuck())
      ensures err.Some? ==> |old(pageTable)| == poolSize && !MustYield(old(View()))
      ensures |old(pageTable)| < poolSize ==> err.None? && replacer.NextVictim() == old(replacer.NextVictim())
    {
      hide Coupled, Frames, RoomMade, Strands, NoCandidate, Replacer.Valid, Replacer.Held, Replacer.Repr, Replacer.NextVictim;
      NothingLost(View(), stranded);
      if |pageTable| < poolSize {
        RoomThere(View(), poolSize);
        return None, {}, {};
      }
      err, gone, lost := EvictOne();
    }

    /** The hit path: the slot is used once more and, unless pinned, touched. */
    method Hit(key: PageKey) returns (slot: BufferSlot)
      requires Valid() && key in pageTable
      modifies `stranded, replacer.Repr(), pageTable.Values
      ensures Valid() && View() == old(View()) && pageTable == old(pageTable) && slot == pageTable[key]
      ensures stranded == old(stranded) - {key}
    {
      hide Coupled, Frames, ClockReplacer.Valid, LruReplacer.Valid, Replacer.Valid, Replacer.Held, Replacer.Repr;
      Apart();
      slot := pageTable[key];
      ghost var held, frames := replacer.Held(), Frames(pageTable);
      IncrementUsage(slot);
      FramesAt(pageTable, key);
      assert Frames(pageTable) == View().table == frames;
      Touch(key, slot, frames);
    }

    /** getPageLocked, and GetPage under its own lock. */
    method GetPage(key: PageKey) returns (err: Option<PoolError>, slot: Option<BufferSlot>, ghost lost: set<PageKey>)
      requires Valid()
      modifies `pageTable, `disk, `stranded, replacer.Repr(), pageTable.Values
      ensures Valid()
      ensures err.None? ==>
        slot.Some? && key in pageTable && slot.value == pageTable[key] && Fetched(old(View()), View(), key, poolSize)
      ensures err.Some? ==> slot.None? && err != Some(PageAlreadyInBuffer) && Step(old(View()), View(), Failure(err.value, key), poolSize)
      ensures err.Some? && err != Some(ReadFailed) ==> View() == old(View())
      ensures err == Some(ReadFailed) <==>
        key !in old(pageTable) && RoomMade(old(View()), View(), poolSize) && !Readable(View().disk, key)
      ensures err == Some(NoVictim) <==> old(FindsNoVictim(key))
      ensures err == Some(WriteFailed) <==> old(FindsRefusal(key))
      ensures stranded == old(stranded) - {key} + lost && Strands(old(View()), old(stranded), lost)
      ensures err == Some(WriteFailed) <==> lost != {}
      ensures forall k :: k in pageTable ==> (k in old(pageTable) && pageTable[k] == old(pageTable)[k]) || fresh(pageTable[k])
    {
      hide Coupled, Frames, RoomMade, Fetched, Readable, Load, Step, Strands, NoCandidate, MustYield, HeapBufferPool.VictimStuck,
        ClockReplacer.Valid, LruReplacer.Valid, Replacer.Valid, Replacer.Held, Replacer.Repr, Replacer.NextVictim;
      NothingLost(View(), stranded);
      if key in pageTable {
        HitIsFetched(View(), key, poolSize);
        var hit := Hit(key);
        return None, Some(hit), {};
      }
      StrandedIsResident(replacer.Held(), pageTable, Frames(pageTable), stranded);
      err, slot, lost := Miss(key);
    }

    /** The page is not resident: room is made for it, and it is read. */
    method Miss(key: PageKey) returns (err: Option<PoolError>, slot: Option<BufferSlot>, ghost lost: set<PageKey>)
      requires Valid() && key !in pageTable
      modifies `pageTable, `disk, `stranded, replacer.Repr(), pageTable.Values
      ensures Valid()
      ensures err.None? ==>
        slot.Some? && key in pageTable && slot.value == pageTable[key] && Fetched(old(View()), View(), key, poolSize)
      ensures err.Some? ==> slot.None? && err != Some(PageAlreadyInBuffer) && Step(old(View()), View(), Failure(err.value, key), poolSize)
      ensures err.Some? && err != Some(ReadFailed) ==> View() == old(View())
      ensures err == Some(ReadFailed) <==> RoomMade(old(View()), View(), poolSize) && !Readable(View().disk, key)
      ensures err == Some(NoVictim) <==> old(FindsNoVictim(key))
      ensures err == Some(WriteFailed) <==> old(FindsRefusal(key))
      ensures stranded == old(stranded) + lost && Strands(old(View()), old(stranded), lost)
      ensures err == Some(WriteFailed) <==> lost != {}
      ensures forall k :: k in pageTable ==> (k in old(pageTable) && pageTable[k] == old(pageTable)[k]) || fresh(pageTable[k])
    {
      hide Coupled, Frames, RoomMade, Fetched, Readable, Load, Step, Strands, NoCandidate, MustYield, HeapBufferPool.VictimStuck,
        ClockReplacer.Valid, LruReplacer.Valid, Replacer.Valid, Replacer.Held, Replacer.Repr, Replacer.NextVictim;
      ghost var s := View();
      NothingLost(s, stranded);
      ghost var gone;
      err, gone, lost := EnsureSpace();
      if err.Some? {
        FullIsNoRoom(s, key, poolSize);
        return err, None, lost;
      }
      ghost var mid := View();
      err, slot := LoadPage(key);
      if err.None? {
        LoadedIsFetched(s, mid, key, poolSize);
        LoadKeepsDisk(mid, key);
      } else {
        UnreadableIs(s, mid, key, poolSize);
      }
    }

    /** Reads the page into a new slot. */
    method LoadPage(key: PageKey) returns (err: Option<PoolError>, slot: Option<BufferSlot>)
      requires Valid() && key !in pageTable && |pageTable| < poolSize
      modifies `pageTable, replacer.Repr()
      ensures Valid() && stranded == old(stranded)
      ensures err == if Readable(disk, key) then None else Some(ReadFailed)
      ensures err.None? ==>
        && slot.Some? && fresh(slot.value) && pageTable == old(pageTable)[key := slot.value]
        && Readable(old(View()).disk, key) && View() == Load(old(View()), key)
      ensures err.Some? ==> slot.None? && View() == old(View()) && pageTable == old(pageTable)
    {
      hide Coupled, Frames, Readable, ClockReplacer.Valid, LruReplacer.Valid, Replacer.Valid, Replacer.Held, Replacer.Repr;
      var page := ReadResult(disk, key);
      if page.None? {
        return Some(ReadFailed), None;
      }
      var loaded := Enter(key, page.value);
      return None, Some(loaded);
    }

    lemma NextIsResident()
      requires Valid()
      ensures replacer.NextVictim().Some? ==> replacer.NextVictim().value in pageTable
    {
      replacer.NextIsHeld();
    }

    /** A new slot joins the table and the replacer; whichever slot was next to be given up still is. */
    method Enter(key: PageKey, page: Page) returns (slot: BufferSlot)
      requires Valid() && key !in pageTable && |pageTable| < poolSize
      modifies `pageTable, replacer.Repr()
      ensures Valid() && pageTable == old(pageTable)[key := slot] && fresh(slot) && stranded == old(stranded)
      ensures View() == old(View()).(table := old(View()).table[key := Frame(page, false, false)])
      ensures old(replacer.NextVictim()).Some? ==> replacer.NextVictim() == old(replacer.NextVictim())
    {
      hide Coupled, Frames, ClockReplacer.Valid, LruReplacer.Valid, Replacer.Valid, Replacer.Held, Replacer.Repr, Replacer.NextVictim;
      Apart();
      NextIsResident();
      ghost var held, table, frames := replacer.Held(), pageTable, Frames(pageTable);
      slot := new BufferSlot(key, page);
      assert Frames(table) == frames && replacer.Held() == held;
      EnterCouples(held, table, frames, stranded, slot, FrameOf(slot));
      replacer.Push(slot);
      FramesPlus(table, slot);
      pageTable := pageTable[key := slot];
    }

    method NewPage(key: PageKey, page: Page) returns (err: Option<PoolError>, slot: Option<BufferSlot>, ghost lost: set<PageKey>)
      requires Valid()
      modifies `pageTable, `disk, `stranded, replacer.Repr(), pageTable.Values
      ensures Valid()
      ensures err.None? ==>
        slot.Some? && key in pageTable && slot.value == pageTable[key] && Step(old(View()), View(), Created(key, page), poolSize)
      ensures err.Some? ==> slot.None? && Step(old(View()), View(), Failure(err.value, key), poolSize)
      ensures err == Some(PageAlreadyInBuffer) <==> key in old(pageTable)
      ensures err == Some(NoVictim) <==> old(FindsNoVictim(key))
      ensures err == Some(WriteFailed) <==> old(FindsRefusal(key))
      ensures stranded == old(stranded) + lost && Strands(old(View()), old(stranded), lost)
      ensures err == Some(WriteFailed) <==> lost != {}
      ensures err.Some? ==> err != Some(ReadFailed)
      ensures forall k :: k in pageTable ==> (k in old(pageTable) && pageTable[k] == old(pageTable)[k]) || fresh(pageTable[k])
      ensures |old(pageTable)| < poolSize && err.None? && old(replacer.NextVictim()).Some? ==>
        replacer.NextVictim() == old(replacer.NextVictim())
    {
      hide Strands, NoCandidate, Step, Coupled, Frames, RoomMade, MustYield, HeapBufferPool.VictimStuck,
        Replacer.Valid, Replacer.Held, Replacer.Repr, Replacer.NextVictim;
      ResidentIs(View(), key, poolSize);
      NothingLost(View(), stranded);
      if key in pageTable {
        return Some(PageAlreadyInBuffer), None, {};
      }
      ghost var gone;
      ghost var s := View();
      err, gone, lost := EnsureSpace();
      if err.Some? {
        FullIsNoRoom(s, key, poolSize);
        return err, None, lost;
      }
      CreatedIs(old(View()), View(), key, page, poolSize);
      var created := Enter(key, page);
      return None, Some(created), {};
    }

    method PutPage(key: PageKey, slot: BufferSlot, page: Page)
      requires replacer.Valid() && key in pageTable && slot == pageTable[key] && forall k :: k in pageTable ==> pageTable[k].key == k
      modifies slot`page, slot`dirty
      ensures slot.page == page && slot.dirty && slot.pinned == old(slot.pinned)
      ensures View() == old(View()).(table := old(View()).table[key := FrameOf(slot)])
      ensures replacer.Valid() && replacer.Held() == old(replacer.Held())
    {
      hide ClockReplacer.Valid, LruReplacer.Valid, Replacer.Valid, Replacer.Held, Replacer.Repr;
      Apart();
      slot.page := page;
      slot.dirty := true;
    }

    method PutPinned(key: PageKey, slot: BufferSlot, pinned: bool)
      requires replacer.Valid() && key in pageTable && slot == pageTable[key] && forall k :: k in pageTable ==> pageTable[k].key == k
      modifies slot`pinned
      ensures slot.pinned == pinned
      ensures View() == old(View()).(table := old(View()).table[key := old(View()).table[key].(pinned := pinned)])
      ensures replacer.Valid() && replacer.Held() == old(replacer.Held())
    {
      hide ClockReplacer.Valid, LruReplacer.Valid, Replacer.Valid, Replacer.Held, Replacer.Repr;
      Apart();
      slot.pinned := pinned;
    }

    /** The slot of `key` if resident, otherwise fetched. */
    method Resident(key: PageKey) returns (err: Option<PoolError>, slot: Option<BufferSlot>, ghost lost: set<PageKey>)
      requires Valid()
      modifies `pageTable, `disk, `stranded, replacer.Repr(), pageTable.Values
      ensures Valid()
      ensures err.None? ==>
        slot.Some? && key in pageTable && slot.value == pageTable[key] && Fetched(old(View()), View(), key, poolSize)
      ensures err.Some? ==> err != Some(PageAlreadyInBuffer) && Step(old(View()), View(), Failure(err.value, key), poolSize)
      ensures err.Some? ==> (err == Some(ReadFailed) <==> RoomMade(old(View()), View(), poolSize) && !Readable(View().disk, key))
      ensures err == Some(NoVictim) || err == Some(WriteFailed) ==> View() == old(View())
      ensures err == Some(NoVictim) <==> old(FindsNoVictim(key))
      ensures err == Some(WriteFailed) <==> old(FindsRefusal(key))
      ensures key in old(pageTable) ==> err.None?
      ensures stranded - {key} == old(stranded) - {key} + lost && Strands(old(View()), old(stranded), lost)
      ensures err == Some(WriteFailed) <==> lost != {}
      ensures err.Some? ==> key !in stranded
      ensures forall k :: k in pageTable ==> (k in old(pageTable) && pageTable[k] == old(pageTable)[k]) || fresh(pageTable[k])
    {
      hide Coupled, Frames, RoomMade, Fetched, Strands, NoCandidate, Replacer.Valid, Replacer.Held, Replacer.Repr;
      NothingLost(View(), stranded);
      StrandedIsResident(replacer.Held(), pageTable, Frames(pageTable), stranded);
      if key in pageTable {
        HitIsFetched(View(), key, poolSize);
        return None, Some(pageTable[key]), {};
      }
      ghost var s, before := View(), stranded;
      err, slot, lost := GetPage(key);
      LostIsResident(s, before, lost, key);
    }

    method UpdatePage(key: PageKey, page: Page) returns (err: Option<PoolError>, ghost lost: set<PageKey>)
      requires Valid()
      modifies `pageTable, `disk, `stranded, replacer.Repr(), pageTable.Values
      ensures Valid()
      ensures Step(old(View()), View(), if err.None? then Updated(key, page) else Failure(err.value, key), poolSize)
      ensures err == Some(ReadFailed) <==>
        key !in old(pageTable) && RoomMade(old(View()), View(), poolSize) && !Readable(View().disk, key)
      ensures err == Some(NoVictim) || err == Some(WriteFailed) ==> View() == old(View())
      ensures err == Some(NoVictim) <==> old(FindsNoVictim(key))
      ensures err == Some(WriteFailed) <==> old(FindsRefusal(key))
      ensures key in old(pageTable) ==> err.None?
      ensures stranded == old(stranded) - {key} + lost && Strands(old(View()), old(stranded), lost)
      ensures err == Some(WriteFailed) <==> lost != {}
      ensures forall k :: k in pageTable ==> (k in old(pageTable) && pageTable[k] == old(pageTable)[k]) || fresh(pageTable[k])
    {
      hide Coupled, Frames, RoomMade, Fetched, Strands, Step, Stuck, ClockReplacer.Valid, LruReplacer.Valid, Replacer.Valid, Replacer.Held, Replacer.Repr,
        Readable, HeapBufferPool.FindsNoVictim, HeapBufferPool.FindsRefusal;
      var slot;
      err, slot, lost := Resident(key);
      if err.Some? {
        return;
      }
      ghost var frames := View().table;
      UpdatedIs(old(View()), View(), key, page, poolSize);
      HeldIsTable(replacer.Held(), pageTable, frames, stranded, key);
      FramesAt(pageTable, key);
      PutPage(key, slot.value, page);
      Touch(key, slot.value, frames);
      FailsIffUnreadable(old(View()), View(), Updated(key, page), poolSize);
    }

    method PinPage(key: PageKey) returns (err: Option<PoolError>, ghost lost: set<PageKey>)
      requires Valid()
      modifies `pageTable, `disk, `stranded, replacer.Repr(), pageTable.Values
      ensures Valid()
      ensures Step(old(View()), View(), if err.None? then PinnedPage(key) else Failure(err.value, key), poolSize)
      ensures err == Some(ReadFailed) <==>
        key !in old(pageTable) && RoomMade(old(View()), View(), poolSize) && !Readable(View().disk, key)
      ensures err == Some(NoVictim) || err == Some(WriteFailed) ==> View() == old(View())
      ensures err == Some(NoVictim) <==> old(FindsNoVictim(key))
      ensures err == Some(WriteFailed) <==> old(FindsRefusal(key))
      ensures key in old(pageTable) ==> err.None?
      ensures stranded == old(stranded) - {key} + lost && Strands(old(View()), old(stranded), lost)
      ensures err == Some(WriteFailed) <==> lost != {}
      ensures forall k :: k in pageTable ==> (k in old(pageTable) && pageTable[k] == old(pageTable)[k]) || fresh(pageTable[k])
    {
      hide Coupled, Frames, RoomMade, Fetched, Strands, Step, Stuck, ClockReplacer.Valid, LruReplacer.Valid, Replacer.Valid, Replacer.Held, Replacer.Repr,
        Readable, HeapBufferPool.FindsNoVictim, HeapBufferPool.FindsRefusal;
      var slot;
      err, slot, lost := Resident(key);
      if err.Some? {
        return;
      }
      ghost var frames := View().table;
      PinnedIs(old(View()), View(), key, poolSize);
      HeldIsTable(replacer.Held(), pageTable, frames, stranded, key);
      FramesAt(pageTable, key);
      PutPinned(key, slot.value, true);
      Withdraw(key, slot.value, frames);
      FailsIffUnreadable(old(View()), View(), PinnedPage(key), poolSize);
    }

    /** A pinned slot is not stranded, so nothing is found again here. */
    method UnpinPage(key: PageKey)
      requires Valid()
      modifies replacer.Repr(), pageTable.Values
      ensures Valid() && pageTable == old(pageTable) && stranded == old(stranded)
      ensures Step(old(View()), View(), UnpinnedPage(key), poolSize)
    {
      hide Coupled, Frames, RoomMade, Fetched, ClockReplacer.Valid, LruReplacer.Valid, Replacer.Valid, Replacer.Held, Replacer.Repr;
      Apart();
      if key !in pageTable {
        return;
      }
      ghost var held, frames := replacer.Held(), View().table;
      FramesAt(pageTable, key);
      HeldIsTable(held, pageTable, frames, stranded, key);
      var slot := pageTable[key];
      if !slot.pinned {
        assert frames == frames[key := frames[key].(pinned := false)];
        return;
      }
      PutPinned(key, slot, false);
      TouchCouples(held, pageTable, frames, stranded, key, frames[key].(pinned := false));
      PinnedIsNotStranded(held, pageTable, frames, stranded, key);
      replacer.Push(slot);
    }

    method FlushPage(key: PageKey) returns (err: Option<PoolError>)
      requires Valid()
      modifies `disk, pageTable.Values
      ensures Valid() && pageTable == old(pageTable)
      ensures Step(old(View()), View(), FlushedPage(key), poolSize)
      ensures err.Some? <==> FlushFails(old(View()), key)
    {
      hide Coupled, Frames, ClockReplacer.Valid, LruReplacer.Valid, Replacer.Valid, Replacer.Held, Replacer.Repr;
      if key !in pageTable {
        return None;
      }
      ghost var held, frames := replacer.Held(), View().table;
      FramesAt(pageTable, key);
      HeldIsTable(held, pageTable, frames, stranded, key);
      FlushCouples(held, pageTable, View(), stranded, key);
      err := FlushSlot(key, pageTable[key]);
    }

    /** A slot that has just been pinned leaves the replacer. */
    method Withdraw(key: PageKey, slot: BufferSlot, ghost frames: map<PageKey, Frame>)
      requires replacer.Valid() && 0 < poolSize && |pageTable| <= poolSize
      requires Coupled(replacer.Held(), pageTable, frames, stranded) && key in pageTable && slot == pageTable[key]
      requires Frames(pageTable) == frames[key := FrameOf(slot)] && slot.pinned
      modifies `stranded, replacer.Repr()
      ensures Valid() && View() == old(View()) && pageTable == old(pageTable) && stranded == old(stranded) - {key}
    {
      hide Coupled, Frames, ClockReplacer.Valid, LruReplacer.Valid, Replacer.Valid, Replacer.Held, Replacer.Repr;
      Apart();
      PinCouples(replacer.Held(), pageTable, frames, stranded, key, FrameOf(slot));
      replacer.Delete(key);
      stranded := stranded - {key};
    }

    /** touch, after the slot's frame may have changed: an unpinned slot goes to the replacer. */
    method Touch(key: PageKey, slot: BufferSlot, ghost frames: map<PageKey, Frame>)
      requires replacer.Valid() && 0 < poolSize && |pageTable| <= poolSize
      requires Coupled(replacer.Held(), pageTable, frames, stranded) && key in pageTable && slot == pageTable[key]
      requires Frames(pageTable) == frames[key := FrameOf(slot)] && slot.pinned == frames[key].pinned
      modifies `stranded, replacer.Repr()
      ensures Valid() && View() == old(View()) && pageTable == old(pageTable) && stranded == old(stranded) - {key}
    {
      hide Coupled, Frames, ClockReplacer.Valid, LruReplacer.Valid, Replacer.Valid, Replacer.Held, Replacer.Repr;
      Apart();
      ghost var held := replacer.Held();
      HeldIsTable(held, pageTable, frames, stranded, key);
      if !slot.pinned {
        replacer.Push(slot);
        TouchCouples(held, pageTable, frames, stranded, key, FrameOf(slot));
        stranded := stranded - {key};
      } else {
        PinnedIsNotStranded(held, pageTable, frames, stranded, key);
        PinCouples(held, pageTable, frames, stranded, key, FrameOf(slot));
      }
    }

    /** Flushes every slot, in any order, until a write fails. */
    method FlushAllPages() returns (err: Option<PoolError>, ghost order: seq<PageKey>)
      requires Valid()
      modifies `disk, pageTable.Values
      ensures Valid() && pageTable == old(pageTable)
      ensures View() == FlushEach(old(View()), order)
      ensures err.None? ==> forall k :: k in View().table ==> !View().table[k].dirty
      ensures err.Some? <==> exists k :: k in pageTable && FlushFails(old(View()), k)
    {
      hide Coupled, Frames, FlushEach, FlushFails, Step, Stuck, ClockReplacer.Valid, LruReplacer.Valid, Replacer.Valid, Replacer.Held, Replacer.Repr;
      var pending := pageTable.Keys;
      ghost var s := View();
      order, err := [], None;
      FlushNone(s);
      FramesKeys(pageTable);
      while pending != {}
        invariant Valid() && pageTable == old(pageTable)
        invariant err.None? && pending <= pageTable.Keys && View() == FlushEach(s, order)
        invariant forall i, j :: 0 <= i < j < |order| ==> order[i] != order[j]
        invariant forall k :: k in order <==> k in pageTable && k !in pending
        invariant forall k :: k in order ==> !FlushFails(s, k)
        decreases pending
      {
        var key :| key in pending;
        pending := pending - {key};
        ghost var mid := View();
        err := FlushPage(key);
        FlushesNext(s, order, mid, View(), key, poolSize);
        order := order + [key];
        if err.Some? {
          return;
        }
      }
      AllFlushed(s, order);
    }

    /** The dirty slots at this moment, in any order. */
    method DirtyPages() returns (slots: seq<BufferSlot>)
      requires Valid()
      ensures DirtyKeys(View(), KeysOf(slots)) && Valid() && View() == old(View())
    {
      hide Coupled, Frames, ClockReplacer.Valid, LruReplacer.Valid, Replacer.Valid, Replacer.Held, Replacer.Repr, KeysOf;
      ghost var frames := View().table;
      TableKeys(replacer.Held(), pageTable, frames, stranded);
      slots := [];
      var pending := pageTable.Keys;
      while pending != {}
        invariant Valid() && View().table == frames && pending <= pageTable.Keys
        invariant forall k :: k in KeysOf(slots) <==> k in frames && k !in pending && frames[k].dirty
        invariant forall i, j :: 0 <= i < j < |slots| ==> KeysOf(slots)[i] != KeysOf(slots)[j]
        decreases pending
      {
        var key :| key in pending;
        pending := pending - {key};
        FramesAt(pageTable, key);
        if pageTable[key].dirty {
          KeysOfSnoc(slots, pageTable[key]);
          slots := slots + [pageTable[key]];
        }
      }
    }
  }

  function KeysOf(slots: seq<BufferSlot>): (keys: seq<PageKey>)
    ensures |keys| == |slots| && forall i :: 0 <= i < |slots| ==> keys[i] == slots[i].key
  {
    seq(|slots|, i requires 0 <= i < |slots| => slots[i].key)
  }

  lemma KeysOfSnoc(slots: seq<BufferSlot>, slot: BufferSlot)
    ensures KeysOf(slots + [slot]) == KeysOf(slots) + [slot.key]
  {
  }

  class DirtyPageWriter {
    const manager: HeapBufferPool
    const batchSize: nat

    constructor (manager: HeapBufferPool, batchSize: nat)
      requires batchSize > 0
      ensures this.manager == manager && this.batchSize == batchSize
    {
      this.manager, this.batchSize := manager, batchSize;
    }

    /** One tick: writes back at most `batchSize` dirty pages; a page that cannot be written is passed over. */
    method FlushBatch() returns (ghost done: seq<PageKey>)
      requires manager.Valid()
      modifies manager`disk, manager.pageTable.Values
      ensures manager.Valid() && manager.pageTable == old(manager.pageTable)
      ensures manager.View() == FlushEach(old(manager.View()), done)
      ensures |Cleaned(old(manager.View()), manager.View())| <= batchSize
      ensures |Cleaned(old(manager.View()), manager.View())| < batchSize ==>
        forall k :: k in manager.View().table && manager.View().table[k].dirty ==> FlushFails(old(manager.View()), k)
    {
      hide Coupled, Frames, FlushEach, HeapBufferPool.Valid, Cleaned, KeysOf;
      ghost var s := manager.View();
      var dirty := manager.DirtyPages();
      var count := 0;
      var i := 0;
      FlushNone(s);
      done := [];
      while i < |dirty|
        invariant 0 <= i <= |dirty| && manager.Valid() && manager.pageTable == old(manager.pageTable)
        invariant done == KeysOf(dirty)[..i] && manager.View() == FlushEach(s, done)
        invariant 0 <= count <= batchSize && count == |Cleaned(s, manager.View())|
      {
        if count >= batchSize {
          return;
        }
        FlushEachSnoc(s, done, dirty[i].key);
        FlushEachCleans(s, done);
        OneMoreCleaned(s, done, dirty[i].key);
        var err := manager.FlushPage(dirty[i].key);
        done := done + [dirty[i].key];
        i := i + 1;
        if err.Some? {
          continue;
        }
        count := count + 1;
      }
      assert done == KeysOf(dirty);
      FlushEachCleans(s, done);
    }
  }

  lemma FlushNone(s: Pool)
    ensures FlushEach(s, []) == s && Cleaned(s, s) == {}
  {
  }

  // ----- A pool of one slot whose page cannot be written -----

  lemma ErrorCases(err: Option<PoolError>)
    ensures err in {None, Some(NoVictim), Some(PageAlreadyInBuffer), Some(ReadFailed), Some(WriteFailed)}
  {
    if err.Some? {
      assert err.value.NoVictim? || err.value.PageAlreadyInBuffer? || err.value.ReadFailed? || err.value.WriteFailed?;
    }
  }

  lemma EmptyLosesNone(s: Pool, stranded: set<PageKey>, lost: set<PageKey>)
    requires Strands(s, stranded, lost) && s.table == map[]
    ensures lost == {}
  {
    assert forall k :: k !in lost;
  }

  lemma CleanIsNotLost(s: Pool, stranded: set<PageKey>, lost: set<PageKey>, key: PageKey, page: Page)
    requires Strands(s, stranded, lost) && s.table == map[key := Frame(page, false, false)]
    ensures lost == {}
  {
    assert forall k :: k !in lost;
  }

  lemma FirstCreated(s: Pool, s': Pool, key: PageKey, page: Page, poolSize: nat)
    requires s.table == map[] && Step(s, s', Created(key, page), poolSize) && poolSize > 0
    ensures s'.table == map[key := Frame(page, false, false)]
  {
  }

  lemma OnlyUpdated(s: Pool, s': Pool, key: PageKey, page: Page, bad: Page, poolSize: nat)
    requires s.table == map[key := Frame(page, false, false)] && Step(s, s', Updated(key, bad), poolSize)
    ensures s'.table == map[key := Frame(bad, true, false)]
  {
  }

  method HoldUnwritable(pool: HeapBufferPool, key: PageKey, page: Page, bad: Page)
    requires pool.Valid() && pool.poolSize > 0 && pool.pageTable == map[] && pool.View().table == map[] && pool.stranded == {}
    modifies pool`pageTable, pool`disk, pool`stranded, pool.replacer.Repr()
    ensures pool.Valid() && pool.View().table == map[key := Frame(bad, true, false)] && pool.stranded == {}
    ensures forall k :: k in pool.pageTable ==> fresh(pool.pageTable[k])
  {
    hide HeapBufferPool.Valid, Frames, Stuck, Strands, NoCandidate, RoomMade, Replacer.Valid, Replacer.Held, Replacer.Repr, Readable, Step;
    ghost var s := pool.View();
    var err, slot, lost := pool.NewPage(key, page);
    EmptyLosesNone(s, {}, lost);
    assert |s.table| == 0;
    ErrorCases(err);
    FirstCreated(s, pool.View(), key, page, pool.poolSize);
    s := pool.View();
    err, lost := pool.UpdatePage(key, bad);
    CleanIsNotLost(s, {}, lost, key, page);
    OnlyUpdated(s, pool.View(), key, page, bad, pool.poolSize);
  }

  lemma RefusedIsTheOne(s: Pool, s': Pool, key: PageKey, other: PageKey, bad: Page, lost: set<PageKey>)
    requires s.table == map[key := Frame(bad, true, false)] && !bad.Writable() && other != key && Strands(s, {}, lost)
    ensures !RoomMade(s, s', 1) && !Fetched(s, s', other, 1)
    ensures !NoCandidate(s, {}) && NoCandidate(s, {key})
    ensures lost != {} ==> lost == {key}
  {
    assert key in s.table && s.table.Keys == {key};
    forall k | k in lost ensures k == key {}
    if lost != {} {
      var k :| k in lost;
    }
  }

  /** A get of another page is refused by the file manager, and the replacer has lost the one slot. */
  method GetRefused(pool: HeapBufferPool, key: PageKey, other: PageKey, bad: Page) returns (err: Option<PoolError>)
    requires pool.Valid() && pool.poolSize == 1 && key != other && !bad.Writable()
    requires pool.View().table == map[key := Frame(bad, true, false)] && pool.stranded == {}
    modifies pool`pageTable, pool`disk, pool`stranded, pool.replacer.Repr(), pool.pageTable.Values
    ensures pool.Valid() && pool.View() == old(pool.View()) && pool.stranded == {key} && err == Some(WriteFailed)
    ensures forall k :: k in pool.pageTable ==> (k in old(pool.pageTable) && pool.pageTable[k] == old(pool.pageTable)[k]) || fresh(pool.pageTable[k])
  {
    hide HeapBufferPool.Valid, Frames, Stuck, Strands, NoCandidate, RoomMade, Fetched, Replacer.Valid, Replacer.Held, Replacer.Repr, Readable, Step;
    ghost var s := pool.View();
    var slot;
    ghost var lost;
    err, slot, lost := pool.GetPage(other);
    RefusedIsTheOne(s, pool.View(), key, other, bad, lost);
    ErrorCases(err);
    assert {} - {other} + {key} == {key};
  }

  /** The first get of another page is refused by the file manager; the second finds no victim, although
      the one resident slot is not pinned. Either policy does this, for any page that cannot be written. */
  method RefusedVictim(replacer: Replacer, key: PageKey, other: PageKey, page: Page, bad: Page)
      returns (pool: HeapBufferPool, first: Option<PoolError>, second: Option<PoolError>)
    requires replacer.Valid() && replacer.Held() == map[] && key != other && !bad.Writable()
    modifies replacer.Repr()
    ensures pool.Valid() && pool.poolSize == 1 && first == Some(WriteFailed) && second == Some(NoVictim)
    ensures pool.View().table == map[key := Frame(bad, true, false)] && pool.stranded == {key}
  {
    hide HeapBufferPool.Valid, Frames, Stuck, Strands, NoCandidate, RoomMade, Fetched, Replacer.Valid, Replacer.Held, Replacer.Repr, Readable, Step;
    pool := new HeapBufferPool(1, replacer, map[]);
    HoldUnwritable(pool, key, page, bad);
    first := GetRefused(pool, key, other, bad);
    OnePinnedOrLost(pool.View(), key, bad);
    var slot;
    ghost var lost;
    second, slot, lost := pool.GetPage(other);
    assert pool.stranded == {key} by { assert lost == {} && {key} - {other} + {} == {key}; }
  }

  lemma OnePinnedOrLost(s: Pool, key: PageKey, bad: Page)
    requires s.table == map[key := Frame(bad, true, false)]
    ensures NoCandidate(s, {key}) && s.table.Keys == {key} && |s.table.Keys| == 1
  {
  }

  // ----- A pool of two slots, one of which could leave -----

  lemma OneHeld(held: map<PageKey, BufferSlot>, table: map<PageKey, BufferSlot>, frames: map<PageKey, Frame>, key: PageKey, bad: Page)
    requires Coupled(held, table, frames, {}) && frames == map[key := Frame(bad, true, false)]
    ensures held.Keys == {key} && table.Keys == {key} && |table.Keys| == 1
  {
  }

  lemma SecondCreated(s: Pool, s': Pool, a: PageKey, b: PageKey, page: Page, bad: Page, poolSize: nat)
    requires s.table == map[a := Frame(bad, true, false)] && a != b && poolSize == 2 && Step(s, s', Created(b, page), poolSize)
    ensures s'.table == map[a := Frame(bad, true, false), b := Frame(page, false, false)]
  {
    assert s.table.Keys == {a};
  }

  lemma HoldsOne(pool: HeapBufferPool, key: PageKey, bad: Page)
    requires pool.Valid() && pool.View().table == map[key := Frame(bad, true, false)] && pool.stranded == {}
    ensures pool.pageTable.Keys == {key} && |pool.pageTable| == 1 && pool.replacer.NextVictim() == Some(key)
  {
    hide Coupled, Replacer.Valid, Replacer.Held, Replacer.Repr, Replacer.NextVictim;
    OneHeld(pool.replacer.Held(), pool.pageTable, Frames(pool.pageTable), key, bad);
    pool.replacer.NextIsHeld();
    assert |pool.pageTable| == |pool.pageTable.Keys|;
  }

  lemma HoldsTwo(pool: HeapBufferPool, a: PageKey, b: PageKey, page: Page, bad: Page)
    requires pool.Valid() && pool.View().table == map[a := Frame(bad, true, false), b := Frame(page, false, false)] && a != b
    requires !bad.Writable() && pool.replacer.NextVictim() == Some(a)
    ensures pool.pageTable.Keys == {a, b} && |pool.pageTable| == 2 && pool.VictimStuck()
  {
    hide Replacer.Valid, Replacer.Held, Replacer.Repr, Replacer.NextVictim;
    assert pool.View().table.Keys == {a, b};
    assert |pool.pageTable| == |pool.pageTable.Keys|;
    FramesAt(pool.pageTable, a);
  }

  lemma CleanOneStays(s: Pool, lost: set<PageKey>, a: PageKey, b: PageKey, page: Page, bad: Page)
    requires s.table == map[a := Frame(bad, true, false), b := Frame(page, false, false)] && a != b && Strands(s, {}, lost)
    ensures b !in lost
  {
  }

  /** Either policy refuses a call though an unpinned, clean slot could be evicted: it picks the other one, pushed
      before, whose page cannot be written. */
  method RefusedDespiteVictim(replacer: Replacer, a: PageKey, b: PageKey, c: PageKey, page: Page, bad: Page)
      returns (pool: HeapBufferPool, err: Option<PoolError>)
    requires replacer.Valid() && replacer.Held() == map[] && a != b && a != c && b != c && !bad.Writable()
    modifies replacer.Repr()
    ensures pool.Valid() && pool.poolSize == 2 && err == Some(WriteFailed)
    ensures pool.View().table == map[a := Frame(bad, true, false), b := Frame(page, false, false)]
    ensures Evictable(pool.View().table[b]) && b !in pool.stranded
  {
    hide HeapBufferPool.Valid, Frames, Strands, NoCandidate, RoomMade, Fetched, Replacer.Valid, Replacer.Held, Replacer.Repr,
      Replacer.NextVictim, Readable, Step, MustYield;
    pool := new HeapBufferPool(2, replacer, map[]);
    HoldUnwritable(pool, a, page, bad);
    HoldsOne(pool, a, bad);
    ghost var s := pool.View();
    var slot;
    ghost var lost;
    err, slot, lost := pool.NewPage(b, page);
    ErrorCases(err);
    SecondCreated(s, pool.View(), a, b, page, bad, pool.poolSize);
    HoldsTwo(pool, a, b, page, bad);
    s := pool.View();
    err, slot, lost := pool.GetPage(c);
    CleanOneStays(s, lost, a, b, page, bad);
  }
}
