/** The buffer pool as a step machine over pages and disk, and its transparency over every run. */
module PoolSpec {
  import opened Values
  import opened BufferModel

  datatype Frame = Frame(page: Page, dirty: bool, pinned: bool)

  datatype Pool = Pool(table: map<PageKey, Frame>, disk: map<PageKey, seq<byte>>)

  /** A read succeeds on a written page whose signature is intact; anything else is an error. */
  predicate Readable(disk: map<PageKey, seq<byte>>, key: PageKey) {
    key.pageID >= 0 && key in disk && Page(key.pageID, disk[key]).IsValid()
  }

  /** Writing goes to the page's own number in the slot's file. */
  function WriteTo(disk: map<PageKey, seq<byte>>, fileID: string, page: Page): map<PageKey, seq<byte>> {
    disk[PageKey(fileID, page.pageID) := page.bytes]
  }

  function Flushed(s: Pool, key: PageKey): Pool
    requires key in s.table
  {
    var f := s.table[key];
    if f.dirty && f.page.Writable() then
      Pool(s.table[key := f.(dirty := false)], WriteTo(s.disk, key.fileID, f.page))
    else s
  }

  /** Dirty and not pinned, but the page file manager refuses to write its page. */
  predicate Stuck(f: Frame) {
    !f.pinned && f.dirty && !f.page.Writable()
  }

  predicate Evictable(f: Frame) {
    !f.pinned && (f.dirty ==> f.page.Writable())
  }

  function Evict(s: Pool, key: PageKey): Pool
    requires key in s.table
  {
    Pool(s.table - {key}, Flushed(s, key).disk)
  }

  /** ensureSpace: nothing while there is room, otherwise one victim leaves. */
  ghost predicate RoomMade(s: Pool, s': Pool, poolSize: nat) {
    if |s.table| < poolSize then s' == s
    else exists victim :: victim in s.table && Evictable(s.table[victim]) && s' == Evict(s, victim)
  }

  function Load(s: Pool, key: PageKey): Pool
    requires Readable(s.disk, key)
  {
    s.(table := s.table[key := Frame(Page(key.pageID, s.disk[key]), false, false)])
  }

  /** getPage: a hit leaves the pool alone, a miss reads the page into a clean slot. */
  ghost predicate Fetched(s: Pool, s': Pool, key: PageKey, poolSize: nat) {
    if key in s.table then s' == s
    else exists mid :: RoomMade(s, mid, poolSize) && Readable(mid.disk, key) && s' == Load(mid, key)
  }

  datatype Event =
    | Got(key: PageKey, page: Page)
    | Created(key: PageKey, page: Page)
    | Updated(key: PageKey, page: Page)
    | PinnedPage(key: PageKey)
    | UnpinnedPage(key: PageKey)
    | FlushedPage(key: PageKey)
    | NoRoom(key: PageKey)
    | Unreadable(key: PageKey)
    | AlreadyResident(key: PageKey)

  ghost predicate Step(s: Pool, s': Pool, e: Event, poolSize: nat) {
    match e
    case Got(key, page) => Fetched(s, s', key, poolSize) && key in s'.table && s'.table[key].page == page
    case Created(key, page) =>
      && key !in s.table
      && exists mid :: RoomMade(s, mid, poolSize) && s' == mid.(table := mid.table[key := Frame(page, false, false)])
    case Updated(key, page) =>
      exists mid :: Fetched(s, mid, key, poolSize) && key in mid.table
        && s' == mid.(table := mid.table[key := mid.table[key].(page := page, dirty := true)])
    case PinnedPage(key) =>
      exists mid :: Fetched(s, mid, key, poolSize) && key in mid.table
        && s' == mid.(table := mid.table[key := mid.table[key].(pinned := true)])
    case UnpinnedPage(key) =>
      s' == if key in s.table then s.(table := s.table[key := s.table[key].(pinned := false)]) else s
    case FlushedPage(key) => s' == if key in s.table then Flushed(s, key) else s
    case NoRoom(key) => key !in s.table && s' == s && |s.table| >= poolSize && !MustYield(s)
    case Unreadable(key) => key !in s.table && RoomMade(s, s', poolSize) && !Readable(s'.disk, key)
    case AlreadyResident(key) => key in s.table && s' == s
  }

  /** Some slot can be evicted, and none that is not pinned refuses to be. */
  ghost predicate MustYield(s: Pool) {
    (exists k :: k in s.table && Evictable(s.table[k])) && forall k :: k in s.table ==> !Stuck(s.table[k])
  }

  /** The steps of FlushedPage for each key in turn. */
  ghost function FlushEach(s: Pool, keys: seq<PageKey>): Pool {
    if keys == [] then s
    else
      var mid := FlushEach(s, keys[..|keys| - 1]);
      var key := keys[|keys| - 1];
      if key in mid.table then Flushed(mid, key) else mid
  }

  lemma FlushEachSnoc(s: Pool, keys: seq<PageKey>, key: PageKey)
    ensures var mid := FlushEach(s, keys);
      FlushEach(s, keys + [key]) == if key in mid.table then Flushed(mid, key) else mid
  {
    assert (keys + [key])[..|keys|] == keys;
  }

  /** Flushing distinct keys cleans exactly the slots among them that can be written. */
  lemma {:induction false} FlushEachCleans(s: Pool, keys: seq<PageKey>)
    requires forall i, j :: 0 <= i < j < |keys| ==> keys[i] != keys[j]
    ensures FlushEach(s, keys).table.Keys == s.table.Keys
    ensures forall k :: k in s.table ==>
      FlushEach(s, keys).table[k] == if k in keys && s.table[k].page.Writable() then s.table[k].(dirty := false) else s.table[k]
  {
    if keys != [] {
      var last := keys[|keys| - 1];
      FlushEachCleans(s, keys[..|keys| - 1]);
      assert last !in keys[..|keys| - 1];
      forall k ensures k in keys <==> k in keys[..|keys| - 1] || k == last {
        assert keys == keys[..|keys| - 1] + [last];
      }
    }
  }

  /** The slots that were dirty and are clean now. */
  ghost function Cleaned(before: Pool, after: Pool): set<PageKey> {
    set k | k in before.table && k in after.table && before.table[k].dirty && !after.table[k].dirty
  }

  /** Flushing one more dirty slot cleans exactly that one, unless its page cannot be written. */
  lemma OneMoreCleaned(s: Pool, keys: seq<PageKey>, key: PageKey)
    requires forall i, j :: 0 <= i < j < |keys| ==> keys[i] != keys[j]
    requires key !in keys && key in s.table && s.table[key].dirty
    ensures |Cleaned(s, FlushEach(s, keys + [key]))| == |Cleaned(s, FlushEach(s, keys))| + if s.table[key].page.Writable() then 1 else 0
  {
    var more := keys + [key];
    FlushEachCleans(s, keys);
    FlushEachCleans(s, more);
    forall k ensures k in more <==> k in keys || k == key {}
    var a, b := Cleaned(s, FlushEach(s, keys)), Cleaned(s, FlushEach(s, more));
    assert b == if s.table[key].page.Writable() then a + {key} else a;
  }

  // ----- Transparency -----

  /** The page last given to `UpdatePage(key)`, unless a `NewPage(key)` came after it. */
  function LastUpdate(events: seq<Event>, key: PageKey): Option<Page> {
    if events == [] then None
    else
      match events[|events| - 1]
      case Updated(k, page) => if k == key then Some(page) else LastUpdate(events[..|events| - 1], key)
      case Created(k, _) => if k == key then None else LastUpdate(events[..|events| - 1], key)
      case _ => LastUpdate(events[..|events| - 1], key)
  }

  /** The update carries the page that belongs to the key. */
  predicate Addressed(e: Event) {
    e.Updated? ==> e.page.pageID == e.key.pageID
  }

  /** Where the last update of `key` is now. */
  ghost predicate Holds(s: Pool, key: PageKey, page: Page) {
    && page.pageID == key.pageID
    && (key in s.table ==> s.table[key].page == page)
    && ((key in s.table && s.table[key].dirty) || (Readable(s.disk, key) && s.disk[key] == page.bytes))
  }

  /** Only slots that hold their own page are ever written back. */
  ghost predicate DirtyAddressed(s: Pool) {
    forall key :: key in s.table && s.table[key].dirty ==> s.table[key].page.pageID == key.pageID
  }

  ghost predicate Transparent(s: Pool, events: seq<Event>) {
    && DirtyAddressed(s)
    && forall key :: LastUpdate(events, key).Some? ==> Holds(s, key, LastUpdate(events, key).value)
  }

  lemma FlushHolds(s: Pool, at: PageKey, key: PageKey, page: Page)
    requires at in s.table && DirtyAddressed(s) && Holds(s, key, page)
    ensures Holds(Flushed(s, at), key, page)
  {
  }

  lemma EvictHolds(s: Pool, at: PageKey, key: PageKey, page: Page)
    requires at in s.table && Evictable(s.table[at]) && DirtyAddressed(s) && Holds(s, key, page)
    ensures Holds(Evict(s, at), key, page)
  {
  }

  lemma RoomHolds(s: Pool, s': Pool, poolSize: nat, key: PageKey, page: Page)
    requires RoomMade(s, s', poolSize) && DirtyAddressed(s) && Holds(s, key, page)
    ensures Holds(s', key, page) && DirtyAddressed(s')
  {
    if |s.table| >= poolSize {
      var victim :| victim in s.table && Evictable(s.table[victim]) && s' == Evict(s, victim);
      EvictHolds(s, victim, key, page);
    }
  }

  lemma RoomAddressed(s: Pool, s': Pool, poolSize: nat)
    requires RoomMade(s, s', poolSize) && DirtyAddressed(s)
    ensures DirtyAddressed(s')
  {
  }

  lemma FetchHolds(s: Pool, s': Pool, at: PageKey, poolSize: nat, key: PageKey, page: Page)
    requires Fetched(s, s', at, poolSize) && DirtyAddressed(s) && Holds(s, key, page)
    ensures Holds(s', key, page)
  {
    if at !in s.table {
      var mid :| RoomMade(s, mid, poolSize) && Readable(mid.disk, at) && s' == Load(mid, at);
      RoomHolds(s, mid, poolSize, key, page);
    }
  }

  lemma FetchAddressed(s: Pool, s': Pool, at: PageKey, poolSize: nat)
    requires Fetched(s, s', at, poolSize) && DirtyAddressed(s)
    ensures DirtyAddressed(s')
  {
    if at !in s.table {
      var mid :| RoomMade(s, mid, poolSize) && Readable(mid.disk, at) && s' == Load(mid, at);
      RoomAddressed(s, mid, poolSize);
    }
  }

  lemma StepAddressed(s: Pool, s': Pool, e: Event, poolSize: nat)
    requires Step(s, s', e, poolSize) && Addressed(e) && DirtyAddressed(s)
    ensures DirtyAddressed(s')
  {
    hide RoomMade, Fetched;
    match e
    case Got(at, _) => FetchAddressed(s, s', at, poolSize);
    case Created(at, p) =>
      var mid :| RoomMade(s, mid, poolSize) && s' == mid.(table := mid.table[at := Frame(p, false, false)]);
      RoomAddressed(s, mid, poolSize);
    case Updated(at, p) =>
      var mid :| Fetched(s, mid, at, poolSize) && at in mid.table
        && s' == mid.(table := mid.table[at := mid.table[at].(page := p, dirty := true)]);
      FetchAddressed(s, mid, at, poolSize);
    case PinnedPage(at) =>
      var mid :| Fetched(s, mid, at, poolSize) && at in mid.table
        && s' == mid.(table := mid.table[at := mid.table[at].(pinned := true)]);
      FetchAddressed(s, mid, at, poolSize);
    case UnpinnedPage(at) =>
    case FlushedPage(at) =>
    case Unreadable(_) => RoomAddressed(s, s', poolSize);
    case _ =>
  }

  lemma StepHolds(s: Pool, s': Pool, e: Event, poolSize: nat, key: PageKey, page: Page)
    requires Step(s, s', e, poolSize) && DirtyAddressed(s)
    requires if e.Updated? && e.key == key then page == e.page && page.pageID == key.pageID else Holds(s, key, page)
    requires !(e.Created? && e.key == key)
    ensures Holds(s', key, page)
  {
    hide RoomMade, Fetched;
    match e
    case Got(at, _) => FetchHolds(s, s', at, poolSize, key, page);
    case Created(at, p) =>
      var mid :| RoomMade(s, mid, poolSize) && s' == mid.(table := mid.table[at := Frame(p, false, false)]);
      RoomHolds(s, mid, poolSize, key, page);
    case Updated(at, p) =>
      var mid :| Fetched(s, mid, at, poolSize) && at in mid.table
        && s' == mid.(table := mid.table[at := mid.table[at].(page := p, dirty := true)]);
      if at != key {
        FetchHolds(s, mid, at, poolSize, key, page);
      }
    case PinnedPage(at) =>
      var mid :| Fetched(s, mid, at, poolSize) && at in mid.table
        && s' == mid.(table := mid.table[at := mid.table[at].(pinned := true)]);
      FetchHolds(s, mid, at, poolSize, key, page);
    case UnpinnedPage(at) =>
    case FlushedPage(at) =>
      if at in s.table {
        FlushHolds(s, at, key, page);
      }
    case Unreadable(_) => RoomHolds(s, s', poolSize, key, page);
    case _ =>
  }

  lemma StepTransparent(s: Pool, s': Pool, events: seq<Event>, e: Event, poolSize: nat)
    requires Step(s, s', e, poolSize) && Addressed(e) && Transparent(s, events)
    ensures Transparent(s', events + [e])
  {
    hide Step, Holds;
    StepAddressed(s, s', e, poolSize);
    assert (events + [e])[..|events|] == events;
    forall key | LastUpdate(events + [e], key).Some? ensures Holds(s', key, LastUpdate(events + [e], key).value) {
      if !(e.Updated? && e.key == key) {
        assert LastUpdate(events + [e], key) == LastUpdate(events, key);
      }
      StepHolds(s, s', e, poolSize, key, LastUpdate(events + [e], key).value);
    }
  }

  // ----- Pins -----

  lemma FetchKeepsPinned(s: Pool, s': Pool, at: PageKey, poolSize: nat, key: PageKey)
    requires Fetched(s, s', at, poolSize) && key in s.table && s.table[key].pinned
    ensures key in s'.table && s'.table[key] == s.table[key]
  {
    if at !in s.table {
      var mid :| RoomMade(s, mid, poolSize) && Readable(mid.disk, at) && s' == Load(mid, at);
    }
  }

  /** A pinned page stays resident, and pinned, until it is unpinned. */
  lemma PinnedStays(s: Pool, s': Pool, e: Event, poolSize: nat, key: PageKey)
    requires Step(s, s', e, poolSize) && key in s.table && s.table[key].pinned && e != UnpinnedPage(key)
    ensures key in s'.table && s'.table[key].pinned
  {
    hide Fetched;
    match e
    case Got(at, _) => FetchKeepsPinned(s, s', at, poolSize, key);
    case Created(at, p) =>
    case Updated(at, p) =>
      var mid :| Fetched(s, mid, at, poolSize) && at in mid.table
        && s' == mid.(table := mid.table[at := mid.table[at].(page := p, dirty := true)]);
      FetchKeepsPinned(s, mid, at, poolSize, key);
    case PinnedPage(at) =>
      var mid :| Fetched(s, mid, at, poolSize) && at in mid.table
        && s' == mid.(table := mid.table[at := mid.table[at].(pinned := true)]);
      FetchKeepsPinned(s, mid, at, poolSize, key);
    case UnpinnedPage(at) =>
    case FlushedPage(at) =>
    case _ =>
  }

  /** Unpinning changes nothing else, and afterwards the page can leave whenever it can be written. */
  lemma UnpinnedCanLeave(s: Pool, s': Pool, poolSize: nat, key: PageKey)
    requires Step(s, s', UnpinnedPage(key), poolSize) && key in s.table
    ensures s'.table.Keys == s.table.Keys && s'.disk == s.disk
    ensures forall k :: k in s.table && k != key ==> s'.table[k] == s.table[k]
    ensures s'.table[key].page == s.table[key].page && s'.table[key].dirty == s.table[key].dirty && !s'.table[key].pinned
    ensures |s'.table| >= poolSize ==>
      ((s.table[key].dirty ==> s.table[key].page.Writable()) <==> Evictable(s'.table[key]) && RoomMade(s', Evict(s', key), poolSize))
  {
  }

  /** The background flusher works between the clients' calls, from a snapshot that grows stale. */
  datatype System = System(pool: Pool, queue: seq<PageKey>, flushed: nat)

  datatype Move = Client(e: Event) | Snapshot | FlushNext

  ghost predicate DirtyKeys(s: Pool, keys: seq<PageKey>) {
    && (forall key :: key in keys <==> key in s.table && s.table[key].dirty)
    && forall i, j :: 0 <= i < j < |keys| ==> keys[i] != keys[j]
  }

  predicate FlushFails(s: Pool, key: PageKey) {
    key in s.table && s.table[key].dirty && !s.table[key].page.Writable()
  }

  ghost predicate Moves(t: System, t': System, m: Move, poolSize: nat, batchSize: nat) {
    match m
    case Client(e) => Step(t.pool, t'.pool, e, poolSize) && t' == t.(pool := t'.pool)
    case Snapshot => t.queue == [] && t' == System(t.pool, t'.queue, 0) && DirtyKeys(t.pool, t'.queue)
    case FlushNext =>
      && t.queue != []
      && if t.flushed >= batchSize then t' == t.(queue := [])
         else
           && Step(t.pool, t'.pool, FlushedPage(t.queue[0]), poolSize)
           && t' == System(t'.pool, t.queue[1..], if FlushFails(t.pool, t.queue[0]) then t.flushed else t.flushed + 1)
  }

  ghost predicate Run(states: seq<System>, moves: seq<Move>, poolSize: nat, batchSize: nat) {
    && |states| == |moves| + 1 && states[0].pool.table == map[]
    && forall i :: 0 <= i < |moves| ==> Moves(states[i], states[i + 1], moves[i], poolSize, batchSize)
  }

  /** What the clients did. */
  function ClientEvents(moves: seq<Move>): seq<Event> {
    if moves == [] then []
    else
      var last := moves[|moves| - 1];
      ClientEvents(moves[..|moves| - 1]) + if last.Client? then [last.e] else []
  }

  lemma {:induction false} RunTransparent(states: seq<System>, moves: seq<Move>, poolSize: nat, batchSize: nat)
    requires Run(states, moves, poolSize, batchSize)
    requires forall i :: 0 <= i < |moves| && moves[i].Client? ==> Addressed(moves[i].e)
    ensures Transparent(states[|moves|].pool, ClientEvents(moves))
  {
    hide Transparent, Step;
    var n := |moves| - 1;
    if moves == [] {
      StartTransparent(states[0].pool);
    } else {
      RunTransparent(states[..n + 1], moves[..n], poolSize, batchSize);
      var t, t', m := states[n], states[n + 1], moves[n];
      assert Moves(t, t', m, poolSize, batchSize);
      assert !m.Client? ==> ClientEvents(moves) == ClientEvents(moves[..n]);
      if m.Client? {
        StepTransparent(t.pool, t'.pool, ClientEvents(moves[..n]), m.e, poolSize);
      } else if m.FlushNext? && t.flushed < batchSize {
        var e := FlushedPage(t.queue[0]);
        StepTransparent(t.pool, t'.pool, ClientEvents(moves[..n]), e, poolSize);
        FlushesAreSilent(t'.pool, ClientEvents(moves[..n]), e);
      } else {
        assert t'.pool == t.pool;
      }
    }
  }

  lemma StartTransparent(s: Pool)
    requires s.table == map[]
    ensures Transparent(s, [])
  {
  }

  lemma FlushesAreSilent(s: Pool, events: seq<Event>, e: Event)
    requires Transparent(s, events + [e]) && e.FlushedPage?
    ensures Transparent(s, events)
  {
    hide Holds;
    assert (events + [e])[..|events|] == events;
    forall key | LastUpdate(events, key).Some? ensures Holds(s, key, LastUpdate(events, key).value) {
      assert LastUpdate(events + [e], key) == LastUpdate(events, key);
    }
  }

  /** Transparency: in every run, under any interleaving of clients and background flusher and for
      any pool size, a get returns the page last given to `UpdatePage` for its key. */
  lemma GetsLastUpdate(states: seq<System>, moves: seq<Move>, poolSize: nat, batchSize: nat, i: nat, key: PageKey, page: Page)
    requires Run(states, moves, poolSize, batchSize)
    requires forall j :: 0 <= j < |moves| && moves[j].Client? ==> Addressed(moves[j].e)
    requires i < |moves| && moves[i] == Client(Got(key, page)) && LastUpdate(ClientEvents(moves[..i]), key).Some?
    ensures page == LastUpdate(ClientEvents(moves[..i]), key).value
  {
    hide Step;
    RunTransparent(states[..i + 1], moves[..i], poolSize, batchSize);
    assert Moves(states[i], states[i + 1], moves[i], poolSize, batchSize);
    StepHolds(states[i].pool, states[i + 1].pool, Got(key, page), poolSize, key, LastUpdate(ClientEvents(moves[..i]), key).value);
    GotIsHeld(states[i].pool, states[i + 1].pool, poolSize, key, page);
  }

  // ----- Which calls fail -----

  /** A get, update or pin fails for want of the page exactly when, once there is room, the page is not on disk. */
  lemma FailsIffUnreadable(s: Pool, s': Pool, e: Event, poolSize: nat)
    requires Step(s, s', e, poolSize) && (e.Got? || e.Updated? || e.PinnedPage? || e.NoRoom? || e.Unreadable?)
    ensures e.Unreadable? <==> e.key !in s.table && RoomMade(s, s', poolSize) && !Readable(s'.disk, e.key)
    ensures e.NoRoom? ==> s' == s
  {
    hide RoomMade;
    if e.NoRoom? {
      FullMakesNoRoom(s, poolSize);
    }
  }

  lemma FullMakesNoRoom(s: Pool, poolSize: nat)
    requires |s.table| >= poolSize
    ensures !RoomMade(s, s, poolSize)
  {
  }

  /** A page that has been updated can be read back, wherever it is. */
  lemma UpdatedIsReadable(s: Pool, s': Pool, events: seq<Event>, key: PageKey, poolSize: nat)
    requires Transparent(s, events) && LastUpdate(events, key).Some?
    ensures !Step(s, s', Unreadable(key), poolSize)
  {
    if Step(s, s', Unreadable(key), poolSize) {
      RoomHolds(s, s', poolSize, key, LastUpdate(events, key).value);
      assert false;
    }
  }

  /** In every run, under any interleaving: a get, update or pin of a page that has been updated never fails for
      want of the page, and never fails at all while there is a free slot, or while some slot can be evicted
      and every slot that is not pinned can be written. */
  lemma UpdatedNeverFails(states: seq<System>, moves: seq<Move>, poolSize: nat, batchSize: nat, i: nat, key: PageKey)
    requires Run(states, moves, poolSize, batchSize)
    requires forall j :: 0 <= j < |moves| && moves[j].Client? ==> Addressed(moves[j].e)
    requires i < |moves| && LastUpdate(ClientEvents(moves[..i]), key).Some?
    ensures moves[i] != Client(Unreadable(key))
    ensures |states[i].pool.table| < poolSize || MustYield(states[i].pool) ==> moves[i] != Client(NoRoom(key))
  {
    hide Transparent;
    RunTransparent(states[..i + 1], moves[..i], poolSize, batchSize);
    assert Moves(states[i], states[i + 1], moves[i], poolSize, batchSize);
    UpdatedIsReadable(states[i].pool, states[i + 1].pool, ClientEvents(moves[..i]), key, poolSize);
  }

  lemma GotIsHeld(s: Pool, s': Pool, poolSize: nat, key: PageKey, page: Page)
    requires Step(s, s', Got(key, page), poolSize)
    ensures key in s'.table && s'.table[key].page == page
  {
  }

  /** Once no slot is dirty, the disk alone holds every last update. */
  lemma CleanIsDurable(s: Pool, events: seq<Event>, key: PageKey)
    requires Transparent(s, events) && LastUpdate(events, key).Some?
    requires forall k :: k in s.table ==> !s.table[k].dirty
    ensures Readable(s.disk, key) && Load(Pool(map[], s.disk), key).table[key].page == LastUpdate(events, key).value
  {
    assert Holds(s, key, LastUpdate(events, key).value);
  }

  // ----- Where transparency ends -----

  /** A page updated under `key` and then evicted reads back as itself if and only if it carries the key's number. */
  lemma ReadsBackIffAddressed(s: Pool, key: PageKey, page: Page)
    requires page.Writable()
    ensures var updated := s.(table := s.table[key := Frame(page, true, false)]);
      var evicted := Evict(updated, key);
      (Readable(evicted.disk, key) && Load(evicted, key).table[key].page == page) <==> page.pageID == key.pageID
  {
    var updated := s.(table := s.table[key := Frame(page, true, false)]);
    assert updated.table[key].dirty && page.Writable();
  }

  /** A page only given to `NewPage` starts clean, so eviction drops it: it reads back if and only if
      the disk already held it. */
  lemma CreatedPageIsDropped(s: Pool, key: PageKey, page: Page)
    requires key !in s.table && page.IsValid()
    ensures var created := s.(table := s.table[key := Frame(page, false, false)]);
      && Evictable(created.table[key]) && Evict(created, key) == s
      && ((Readable(s.disk, key) && Load(Evict(created, key), key).table[key].page == page) <==>
          (page.Writable() && page.pageID == key.pageID && key in s.disk && s.disk[key] == page.bytes))
  {
    var created := s.(table := s.table[key := Frame(page, false, false)]);
    assert created.table - {key} == s.table;
  }
}
