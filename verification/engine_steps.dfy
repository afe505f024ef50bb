/** Every operation on the engine, as a step on its value, and the invariant they all keep. */
module EngineSteps {
  import opened Model
  import opened Seqs
  import opened Memtable
  import opened Sharding
  import opened Storage
  import opened EngineState
  import opened Aggregation
  import opened Downsample

  // ----- the invariant -----

  /** A block's table is well formed, its bounds are exact, and it lies below `end`. */
  ghost predicate GoodBlock<V>(b: BlockV<V>, end: int) {
    && WellFormedTable(b.byID)
    && ExactBounds(Times(b.byID), b.minTS, b.maxTS)
    && 0 <= b.minTS && b.maxTS < end
  }

  /** Shard s may list block id: the id was handed out, a stored block lies inside the shard's
      window, and an archived shard lists nothing that can still be opened. */
  ghost predicate ListedWell<V>(s: ShardV, store: StoreV<V>, id: nat) {
    && 1 <= id <= store.nextID
    && (id in store.blocks ==> s.start <= store.blocks[id].minTS && store.blocks[id].maxTS < s.end)
    && (s.state == ShardArchived ==> !Openable(store, id))
  }

  /** Every block is listed at most once. */
  ghost predicate ListedOnce(shards: seq<ShardV>) {
    && (forall i, a, b :: 0 <= i < |shards| && 0 <= a < b < |shards[i].blocks| ==>
                            shards[i].blocks[a] != shards[i].blocks[b])
    && (forall i, j, id :: 0 <= i < j < |shards| && id in shards[i].blocks ==> id !in shards[j].blocks)
  }

  ghost predicate ListingGood<V>(shards: seq<ShardV>, store: StoreV<V>) {
    && (forall i, id :: 0 <= i < |shards| && id in shards[i].blocks ==> ListedWell(shards[i], store, id))
    && ListedOnce(shards)
  }

  ghost predicate CoreInvariant<V>(c: Core<V>) {
    && ShardInvariant(c.shards)
    && MemInvariant(c.mem) && BelowNewestEnd(c)
    && StoreInvariant(c.store)
    && (forall id :: id in c.store.blocks ==> GoodBlock(c.store.blocks[id], c.shards.Newest().end))
    && ListingGood(c.shards.shards, c.store)
  }

  /** A new engine at clock time `now`. */
  ghost function NewCore<V>(window: int, now: int): Core<V>
    requires window > 0
  {
    Core(EmptyMem(), NewShards(window, now).value, StoreV(map[], 0, 0))
  }

  lemma NewCoreInvariant<V>(window: int, now: int)
    requires window > 0 && now > -window
    ensures CoreInvariant(NewCore<V>(window, now))
  {
    NewShardsInvariant(window, now);
  }

  // ----- what may change without harm -----

  /** Some blocks gone, the rest with the same points and archived if they were before. */
  ghost predicate Shrinks<V>(a: StoreV<V>, b: StoreV<V>) {
    && StoreInvariant(b) && b.nextID == a.nextID
    && forall id :: id in b.blocks ==>
                      && id in a.blocks
                      && b.blocks[id].byID == a.blocks[id].byID
                      && b.blocks[id].minTS == a.blocks[id].minTS && b.blocks[id].maxTS == a.blocks[id].maxTS
                      && (a.blocks[id].archived ==> b.blocks[id].archived)
  }

  lemma ShrunkInvariant<V>(c: Core<V>, store: StoreV<V>)
    requires CoreInvariant(c) && Shrinks(c.store, store)
    ensures CoreInvariant(c.(store := store))
  {
    hide ShardInvariant, MemInvariant, WellFormedTable, ExactBounds, Times, ListedOnce, StoreInvariant;
  }

  lemma UpdateShrinks<V>(s: StoreV<V>, id: nat, b: BlockV<V>)
    requires StoreInvariant(s) && id in s.blocks && b.id == id
    requires b.byID == s.blocks[id].byID && b.minTS == s.blocks[id].minTS && b.maxTS == s.blocks[id].maxTS
    requires s.blocks[id].archived ==> b.archived
    ensures Shrinks(s, s.(blocks := s.blocks[id := b]))
  {
    hide StoreInvariant;
    UpdateKeepsStore(s, id, b);
  }

  lemma OpenShrinks<V>(s: StoreV<V>, id: nat)
    requires StoreInvariant(s)
    ensures Shrinks(s, OpenIn(s, id)) && Shrinks(s, CloseIn(s, id))
    ensures Shrinks(s, ArchiveIn(s, id)) && Shrinks(s, CompactingIn(s, id))
  {
    hide Shrinks;
    SameShrinks(s);
    if id in s.blocks {
      UpdateShrinks(s, id, AcquireBlock(s.blocks[id]));
      UpdateShrinks(s, id, ReleaseBlock(s.blocks[id]));
      UpdateShrinks(s, id, ArchiveBlock(s.blocks[id]));
      UpdateShrinks(s, id, CompactingBlock(s.blocks[id]));
    }
  }

  lemma SameShrinks<V>(s: StoreV<V>)
    requires StoreInvariant(s)
    ensures Shrinks(s, s)
  {
  }

  lemma ReclaimShrinks<V>(s: StoreV<V>)
    requires StoreInvariant(s)
    ensures Shrinks(s, ReclaimIn(s))
  {
    ReclaimKeepsStore(s);
  }

  lemma ShrinksTwice<V>(a: StoreV<V>, b: StoreV<V>, c: StoreV<V>)
    requires Shrinks(a, b) && Shrinks(b, c)
    ensures Shrinks(a, c)
  {
    hide StoreInvariant;
  }

  /** A fresh block holding points of the newest window may be created and listed there. */
  lemma ListNewBlock<V>(c: Core<V>, table: Table<V>, minTS: int, maxTS: int)
    requires CoreInvariant(c) && WellFormedTable(table) && ExactBounds(Times(table), minTS, maxTS)
    requires c.shards.Newest().start <= minTS && maxTS < c.shards.Newest().end
    ensures CoreInvariant(Core(c.mem, AddBlockToNewest(c.shards, c.store.nextID + 1),
                               CreateIn(c.store, table, minTS, maxTS)))
  {
    hide MemInvariant, WellFormedTable, ExactBounds, Times, ListedOnce, StoreInvariant, ShardInvariant;
    InvariantShape(c.shards);
    CreateKeepsStore(c.store, table, minTS, maxTS);
    AddBlockKeeps(c.shards, c.store.nextID + 1);
    NewIdFresh(c.store);
    ListOnceMore(c.shards, c.store);
    ListMoreWell(c.shards, c.store, table, minTS, maxTS);
  }

  lemma NewIdFresh<V>(s: StoreV<V>)
    requires StoreInvariant(s)
    ensures s.nextID + 1 !in s.blocks
  {
  }

  lemma ListOnceMore<V>(m: Shards, s: StoreV<V>)
    requires m.shards != [] && ListingGood(m.shards, s)
    ensures ListedOnce(AddBlockToNewest(m, s.nextID + 1).shards)
  {
    var id, n := s.nextID + 1, |m.shards| - 1;
    var out := AddBlockToNewest(m, id).shards;
    assert forall i, x :: 0 <= i < |m.shards| && x in m.shards[i].blocks ==> ListedWell(m.shards[i], s, x);
    assert forall i :: 0 <= i < n ==> out[i].blocks == m.shards[i].blocks;
    assert out[n].blocks == m.shards[n].blocks + [id];
    assert forall a :: 0 <= a < |m.shards[n].blocks| ==> m.shards[n].blocks[a] in m.shards[n].blocks;
  }

  lemma ListMoreWell<V>(m: Shards, s: StoreV<V>, table: Table<V>, minTS: int, maxTS: int)
    requires m.shards != [] && ListingGood(m.shards, s) && s.nextID + 1 !in s.blocks
    requires m.Newest().start <= minTS && maxTS < m.Newest().end && m.Newest().state == ShardActive
    ensures (var out := AddBlockToNewest(m, s.nextID + 1).shards;
             forall i, id :: 0 <= i < |out| && id in out[i].blocks ==>
                               ListedWell(out[i], CreateIn(s, table, minTS, maxTS), id))
  {
    hide ListedOnce;
    var n, out := |m.shards| - 1, AddBlockToNewest(m, s.nextID + 1).shards;
    forall i, id | 0 <= i < |out| && id in out[i].blocks
      ensures ListedWell(out[i], CreateIn(s, table, minTS, maxTS), id)
    {
      if id in m.shards[i].blocks {
        assert ListedWell(m.shards[i], s, id);
      }
    }
  }

  // ----- rotation -----

  /** Rotating shards seals old ones and adds an empty newest one; blocks stay where they are. */
  ghost predicate MovesOn(a: Shards, b: Shards) {
    && ShardInvariant(b) && |b.shards| >= |a.shards|
    && (forall i :: 0 <= i < |a.shards| ==>
                      && b.shards[i].start == a.shards[i].start && b.shards[i].end == a.shards[i].end
                      && b.shards[i].blocks == a.shards[i].blocks
                      && (b.shards[i].state == ShardArchived ==> a.shards[i].state == ShardArchived))
    && (forall i :: |a.shards| <= i < |b.shards| ==> b.shards[i].blocks == [])
    && (a.shards != [] ==> a.Newest().end <= b.Newest().end)
  }

  lemma MovedInvariant<V>(c: Core<V>, shards: Shards)
    requires CoreInvariant(c) && MovesOn(c.shards, shards)
    ensures CoreInvariant(c.(shards := shards))
  {
    hide ShardInvariant, MemInvariant, WellFormedTable, ExactBounds, Times, StoreInvariant, ListedOnce;
    InvariantShape(c.shards);
    MovedOnce(c.shards, shards);
  }

  lemma MovedOnce(a: Shards, b: Shards)
    requires MovesOn(a, b) && ListedOnce(a.shards)
    ensures ListedOnce(b.shards)
  {
    hide ShardInvariant;
  }

  lemma RouteMoves(m: Shards, ts: int)
    requires ShardInvariant(m) && Routable(m, ts)
    ensures MovesOn(m, RouteShards(m, ts)) && ts < RouteShards(m, ts).Newest().end
  {
    RouteContains(m, ts);
    if ts >= m.Newest().end { RouteRotates(m, ts); }
  }

  lemma RotateMoves(m: Shards)
    requires ShardInvariant(m)
    ensures MovesOn(m, RotateShards(m))
  {
    RotateKeeps(m);
  }

  // ----- append and flush -----

  /** `Append` after the log record: a refused point changes nothing. */
  ghost function AppendCore<V>(c: Core<V>, p: Point<V>): Core<V>
    requires c.shards.shards != [] && c.shards.window > 0
  {
    if Routable(c.shards, p.ts) then Core(MemWrite(c.mem, p), RouteShards(c.shards, p.ts), c.store) else c
  }

  lemma AppendKeeps<V>(c: Core<V>, p: Point<V>)
    requires CoreInvariant(c)
    ensures CoreInvariant(AppendCore(c, p))
  {
    hide ShardInvariant, Times, ListingGood, GoodBlock, StoreInvariant, MovesOn, MemWrite, RouteShards;
    InvariantShape(c.shards);
    if Routable(c.shards, p.ts) {
      RouteMoves(c.shards, p.ts);
      MovedInvariant(c, RouteShards(c.shards, p.ts));
      WriteKeepsInvariant(c.mem, p);
      WriteTable(c.mem, p);
    }
  }

  lemma KeptTable<V>(t: Table<V>, start: int)
    requires WellFormedTable(t)
    ensures WellFormedTable(KeptFrom(t, start))
  {
    hide Filter;
    forall s | s in KeptFrom(t, start)
      ensures Ascending(KeptFrom(t, start)[s]) && forall p :: p in KeptFrom(t, start)[s] ==> p.series == s
    {
      FilteredAscends(AtOrAfter(start), t[s]);
      forall p | p in Filter(AtOrAfter(start), t[s]) ensures p.series == s { FilterMember(AtOrAfter(start), t[s], p); }
    }
  }

  lemma AscendsMore<V>(pts: seq<Point<V>>, p: Point<V>)
    requires Ascending(pts) && forall q :: q in pts ==> q.ts < p.ts
    ensures Ascending(pts + [p])
  {
    forall i | 0 <= i < |pts| ensures pts[i].ts < p.ts { assert pts[i] in pts; }
  }

  lemma AscendingInit<V>(pts: seq<Point<V>>, p: Point<V>)
    requires Ascending(pts + [p])
    ensures Ascending(pts) && forall q :: q in pts ==> q.ts < p.ts
  {
    var all := pts + [p];
    forall i | 0 <= i < |pts| ensures pts[i].ts < p.ts { assert all[i].ts < all[|pts|].ts; }
    forall i, j | 0 <= i < j < |pts| ensures pts[i].ts < pts[j].ts { assert all[i].ts < all[j].ts; }
  }

  lemma {:induction false} FilteredAscends<V>(keep: Point<V> -> bool, pts: seq<Point<V>>)
    requires Ascending(pts)
    ensures Ascending(Filter(keep, pts))
    decreases |pts|
  {
    hide Ascending, Filter;
    if pts == [] {
      FilterNothing(keep);
    } else {
      var before, p := pts[..|pts| - 1], pts[|pts| - 1];
      assert pts == before + [p];
      AscendingInit(before, p);
      FilteredAscends(keep, before);
      FilterSnoc(keep, before, p);
      forall q | q in Filter(keep, before) ensures q.ts < p.ts { FilterMember(keep, before, q); }
      AscendsMore(Filter(keep, before), p);
    }
  }

  lemma EmptyMemGood<V>(m: Shards)
    requires m.shards != []
    ensures MemInvariant(EmptyMem<V>()) && Times(EmptyMem<V>().byID) == {}
  {
  }

  lemma FlushKeeps<V>(c: Core<V>, order: seq<nat>)
    requires CoreInvariant(c) && IsOrder(order, c.mem.byID)
    ensures FlushCore(c, order) == (FlushPlain(c), true)
    ensures CoreInvariant(FlushPlain(c))
  {
    hide ShardInvariant, Times, ListingGood, GoodBlock, StoreInvariant, KeptFrom, FlushCore;
    InvariantShape(c.shards);
    FlushIsPlain(c, order);
    EmptyMemGood<V>(c.shards);
    var start := c.shards.Newest().start;
    var kept := KeptFrom(c.mem.byID, start);
    assert CoreInvariant(c.(mem := EmptyMem()));
    if c.mem.points > 0 && kept != map[] {
      KeptTable(c.mem.byID, start);
      KeptNonEmpty(c.mem.byID, start);
      KeptTimes(c.mem.byID, start, Least(Times(kept)));
      KeptTimes(c.mem.byID, start, Greatest(Times(kept)));
      ListNewBlock(c.(mem := EmptyMem()), kept, Least(Times(kept)), Greatest(Times(kept)));
    }
  }

  // ----- compaction -----

  const DEFAULT_STEP := 60_000_000_000

  /** A non-positive step means one minute. */
  function EffectiveStep(step: int): int {
    if step <= 0 then DEFAULT_STEP else step
  }

  function CompactTable(t: Table<real>, step: int): Table<real>
    requires step > 0
  {
    map s | s in t && t[s] != [] :: CompactPoints(t[s], step)
  }

  /** The store while `Compact` holds its source. */
  function HeldForCompaction<V>(s: StoreV<V>, id: nat): StoreV<V> {
    CompactingIn(OpenIn(s, id), id)
  }

  /** The store after the source is archived, reclaim has run, and the handle is closed. */
  function ReleasedAfterCompaction<V>(s: StoreV<V>, id: nat): StoreV<V> {
    CloseIn(ReclaimIn(ArchiveIn(s, id)), id)
  }

  /** `Compact`. The id 0 stands for no block. */
  ghost function CompactCore(c: Core<real>, id: nat, step: int): (r: (Core<real>, Result<nat>))
    requires c.shards.shards != [] && c.shards.window > 0 && step > 0
    ensures r.0.shards.shards != [] && r.0.shards.window > 0
  {
    if id !in c.store.blocks then (c, Ok(0))
    else if c.store.blocks[id].archived then (c, Err(AlreadyArchived))
    else
      var src := c.store.blocks[id];
      var table := CompactTable(src.byID, step);
      var held := HeldForCompaction(c.store, id);
      if table == map[] then (c.(store := ReleasedAfterCompaction(held, id)), Ok(0))
      else
        var made := CreateIn(held, table, Least(Times(table)), Greatest(Times(table)));
        if Routable(c.shards, src.minTS) then
          (Core(c.mem, AddBlockToNewest(RouteShards(c.shards, src.minTS), made.nextID),
           ReleasedAfterCompaction(made, id)),
           Ok(made.nextID))
        else (c.(store := CloseIn(made, id)), Err(BeforeActiveShard))
  }

  lemma HeldShrinks<V>(s: StoreV<V>, id: nat)
    requires StoreInvariant(s)
    ensures Shrinks(s, HeldForCompaction(s, id))
  {
    hide StoreInvariant, Shrinks;
    OpenShrinks(s, id);
    ShrinksStore(s, OpenIn(s, id));
    OpenShrinks(OpenIn(s, id), id);
    ShrinksTwice(s, OpenIn(s, id), HeldForCompaction(s, id));
  }

  lemma ReleasedShrinks<V>(s: StoreV<V>, id: nat)
    requires StoreInvariant(s)
    ensures Shrinks(s, ReleasedAfterCompaction(s, id))
  {
    hide StoreInvariant, Shrinks;
    var a, r := ArchiveIn(s, id), ReclaimIn(ArchiveIn(s, id));
    OpenShrinks(s, id);
    ShrinksStore(s, a);
    ReclaimShrinks(a);
    ShrinksStore(a, r);
    OpenShrinks(r, id);
    ShrinksTwice(s, a, r);
    ShrinksTwice(s, r, ReleasedAfterCompaction(s, id));
  }

  lemma ShrinksStore<V>(a: StoreV<V>, b: StoreV<V>)
    requires Shrinks(a, b)
    ensures StoreInvariant(b)
  {
  }

  lemma CompactedTable(t: Table<real>, step: int)
    requires step > 0 && WellFormedTable(t)
    ensures WellFormedTable(CompactTable(t, step))
  {
    hide CompactPoints;
    forall s | s in CompactTable(t, step)
      ensures Ascending(CompactTable(t, step)[s]) && forall p :: p in CompactTable(t, step)[s] ==> p.series == s
    {
      CompactedAligned(t[s], step);
      CompactedSeries(t[s], step, s);
    }
  }

  lemma CompactedSeries(pts: seq<Point<real>>, step: int, s: nat)
    requires step > 0 && forall p :: p in pts ==> p.series == s
    ensures forall c :: c in CompactPoints(pts, step) ==> c.series == s
  {
    hide FoldWindows;
    if pts != [] { assert pts[0] in pts; }
  }

  lemma CompactedPointTimes(pts: seq<Point<real>>, step: int, w: int)
    requires step > 0 && SortedByTime(pts)
    ensures w in TimesOf(CompactPoints(pts, step)) <==> exists ts :: ts in TimesOf(pts) && Align(ts, step) == w
  {
    hide Align, CompactPoints;
    if w in TimesOf(CompactPoints(pts, step)) {
      var ts := TimeBehind(pts, step, w);
    }
    if ts :| ts in TimesOf(pts) && Align(ts, step) == w {
      var k :| 0 <= k < |pts| && pts[k].ts == ts;
      var c := CompactedHas(pts, step, pts[k]);
      var i :| 0 <= i < |CompactPoints(pts, step)| && CompactPoints(pts, step)[i] == c;
    }
  }

  lemma TimeBehind(pts: seq<Point<real>>, step: int, w: int) returns (ts: int)
    requires step > 0 && SortedByTime(pts) && w in TimesOf(CompactPoints(pts, step))
    ensures ts in TimesOf(pts) && Align(ts, step) == w
  {
    hide FoldWindows, Align;
    var accs, cs := FoldWindows(pts, step), CompactPoints(pts, step);
    FoldIsGrouping(pts, step);
    var i :| 0 <= i < |cs| && cs[i].ts == w;
    var p := GroupingStart(accs, pts, step, i);
    var k :| 0 <= k < |pts| && pts[k] == p;
    ts := pts[k].ts;
  }

  lemma TimesSplit<V>(t: Table<V>, ts: int)
    ensures ts in Times(t) <==> exists s :: s in t && ts in TimesOf(t[s])
  {
    if ts in Times(t) {
      var s, i :| s in t && 0 <= i < |t[s]| && t[s][i].ts == ts;
      assert ts in TimesOf(t[s]);
    }
  }

  /** A compacted table's timestamps are the window starts of the source's. */
  lemma CompactedTimes(t: Table<real>, step: int, w: int)
    requires step > 0 && WellFormedTable(t)
    ensures w in Times(CompactTable(t, step)) <==> exists ts :: ts in Times(t) && Align(ts, step) == w
  {
    hide CompactPoints, Align, Times, TimesOf;
    var out := CompactTable(t, step);
    TimesSplit(out, w);
    if w in Times(out) {
      var s :| s in out && w in TimesOf(out[s]);
      CompactedPointTimes(t[s], step, w);
      var ts :| ts in TimesOf(t[s]) && Align(ts, step) == w;
      TimesSplit(t, ts);
    }
    if ts :| ts in Times(t) && Align(ts, step) == w {
      TimesSplit(t, ts);
      var s :| s in t && ts in TimesOf(t[s]);
      CompactedPointTimes(t[s], step, w);
      NoTimesOfNone<real>();
      assert s in out;
    }
  }

  lemma NoTimesOfNone<V>()
    ensures TimesOf<V>([]) == {}
  {
  }

  /** Compaction rounds both bounds down by less than one step. */
  lemma CompactedBounds(t: Table<real>, step: int, minTS: int, maxTS: int)
    requires step > 0 && WellFormedTable(t) && ExactBounds(Times(t), minTS, maxTS) && minTS >= 0
    ensures (var out := CompactTable(t, step);
             && out != map[]
             && ExactBounds(Times(out), Least(Times(out)), Greatest(Times(out)))
             && Least(Times(out)) == Align(minTS, step) && Greatest(Times(out)) == Align(maxTS, step)
             && 0 <= Least(Times(out)) && maxTS - step < Greatest(Times(out)) <= maxTS)
  {
    hide CompactTable, Align, Times;
    var out := CompactTable(t, step);
    var lo, hi := Align(minTS, step), Align(maxTS, step);
    CompactedTimes(t, step, lo);
    CompactedTimes(t, step, hi);
    forall w | w in Times(out) ensures lo <= w <= hi {
      CompactedTimes(t, step, w);
      var ts :| ts in Times(t) && Align(ts, step) == w;
      AlignMonotone(minTS, ts, step);
      AlignMonotone(ts, maxTS, step);
    }
    BoundsUnique(Times(out), lo, hi);
    AlignNonNegative(minTS, step);
    AlignNonNegative(maxTS, step);
    if out == map[] { NoTimes<real>(); }
  }

  lemma DividesStart(start: int, window: int, step: int)
    requires window > 0 && step > 0 && window % step == 0 && start >= 0 && start % window == 0
    ensures start % step == 0
  {
    DivideBounds(window, step);
    DivideBounds(start, window);
    var q, k := window / step, start / window;
    assert start == k * window == k * (q * step) == (k * q) * step;
    MultipleOf(k * q, step);
  }

  /** The compaction goes through and its first window starts before the shard that is to list it. */
  ghost predicate Escapes(c: Core<real>, id: nat, step: int)
    requires c.shards.shards != [] && step > 0
  {
    && Openable(c.store, id) && Routable(c.shards, c.store.blocks[id].minTS)
    && Align(c.store.blocks[id].minTS, step) < c.shards.Newest().start
  }

  /** A compaction keeps the invariant exactly when its output does not start before its shard. */
  lemma CompactKeeps(c: Core<real>, id: nat, step: int)
    requires CoreInvariant(c) && c.shards.shards != [] && c.shards.window > 0 && step > 0
    ensures CoreInvariant(CompactCore(c, id, step).0) <==> !Escapes(c, id, step)
  {
    hide CoreInvariant, CompactCore, Align;
    if Escapes(c, id, step) {
      EscapedBreaks(c, id, step);
    } else {
      InsideKeeps(c, id, step);
    }
  }

  lemma DividingStays(c: Core<real>, id: nat, step: int)
    requires CoreInvariant(c) && c.shards.shards != [] && step > 0 && c.shards.window % step == 0
    ensures !Escapes(c, id, step)
  {
    hide MemInvariant, StoreInvariant, ListingGood, BelowNewestEnd, Times, Align;
    StartDivides(c.shards, step);
    if Openable(c.store, id) && Routable(c.shards, c.store.blocks[id].minTS) {
      AlignAtLeast(c.store.blocks[id].minTS, step, c.shards.Newest().start);
    }
  }

  lemma InsideKeeps(c: Core<real>, id: nat, step: int)
    requires CoreInvariant(c) && c.shards.shards != [] && c.shards.window > 0 && step > 0 && !Escapes(c, id, step)
    ensures CoreInvariant(CompactCore(c, id, step).0)
  {
    hide ShardInvariant, MemInvariant, StoreInvariant, ListingGood, BelowNewestEnd, CompactTable, Times,
      HeldForCompaction, ReleasedAfterCompaction, CreateIn, Align;
    InvariantShape(c.shards);
    if id in c.store.blocks && !c.store.blocks[id].archived {
      var src := c.store.blocks[id];
      var table, held := CompactTable(src.byID, step), HeldForCompaction(c.store, id);
      CompactedBounds(src.byID, step, src.minTS, src.maxTS);
      CompactedTable(src.byID, step);
      HeldShrinks(c.store, id);
      var h := c.(store := held);
      ShrunkInvariant(c, held);
      var lo, hi := Least(Times(table)), Greatest(Times(table));
      if Routable(c.shards, src.minTS) {
        ListNewBlock(h, table, lo, hi);
        var l := Core(c.mem, AddBlockToNewest(c.shards, held.nextID + 1), CreateIn(held, table, lo, hi));
        CreatedId(held, table, lo, hi);
        ReleasedShrinks(l.store, id);
        ShrunkInvariant(l, ReleasedAfterCompaction(l.store, id));
      } else {
        UnlistedKeeps(h, table, lo, hi);
        var u := h.(store := CreateIn(held, table, lo, hi));
        OpenShrinks(u.store, id);
        ShrunkInvariant(u, CloseIn(u.store, id));
      }
    }
  }

  lemma EscapedBreaks(c: Core<real>, id: nat, step: int)
    requires CoreInvariant(c) && c.shards.shards != [] && c.shards.window > 0 && step > 0 && Escapes(c, id, step)
    ensures !CoreInvariant(CompactCore(c, id, step).0)
  {
    hide MemInvariant, ListedOnce, BelowNewestEnd, CompactTable, Times, StoreInvariant, ShardInvariant,
      HeldForCompaction, ReleasedAfterCompaction, Align;
    InvariantShape(c.shards);
    var src := c.store.blocks[id];
    assert GoodBlock(src, c.shards.Newest().end);
    var table, held := CompactTable(src.byID, step), HeldForCompaction(c.store, id);
    CompactedBounds(src.byID, step, src.minTS, src.maxTS);
    HeldShrinks(c.store, id);
    NewIdFresh(held);
    HeldHas(c.store, id);
    var made := CreateIn(held, table, Least(Times(table)), Greatest(Times(table)));
    CreateKeepsStore(held, table, Least(Times(table)), Greatest(Times(table)));
    ReleasedOpenable(made, id, made.nextID);
    var d, n := CompactCore(c, id, step).0, |c.shards.shards| - 1;
    assert d.shards == AddBlockToNewest(c.shards, made.nextID);
    assert made.nextID in d.shards.shards[n].blocks;
    assert !ListedWell(d.shards.shards[n], d.store, made.nextID);
  }

  lemma HeldHas<V>(s: StoreV<V>, id: nat)
    requires Openable(s, id)
    ensures id in HeldForCompaction(s, id).blocks && !HeldForCompaction(s, id).blocks[id].archived
  {
  }

  lemma ReleasedOpenable<V>(s: StoreV<V>, id: nat, other: nat)
    requires StoreInvariant(s)
    ensures other != id ==> (Openable(ReleasedAfterCompaction(s, id), other) <==> Openable(s, other))
    ensures other != id && Openable(s, other) ==> ReleasedAfterCompaction(s, id).blocks[other] == s.blocks[other]
    ensures !Openable(ReleasedAfterCompaction(s, id), id)
  {
  }

  lemma CreatedId<V>(s: StoreV<V>, table: Table<V>, lo: int, hi: int)
    ensures CreateIn(s, table, lo, hi).nextID == s.nextID + 1
  {
  }

  lemma StartDivides(m: Shards, step: int)
    requires ShardInvariant(m) && step > 0 && m.window % step == 0
    ensures 0 <= m.Newest().start && m.Newest().start % step == 0
  {
    DividesStart(m.Newest().start, m.window, step);
  }

  /** A refused compaction leaves its new block stored and unlisted. */
  lemma UnlistedKeeps<V>(c: Core<V>, table: Table<V>, minTS: int, maxTS: int)
    requires CoreInvariant(c) && WellFormedTable(table) && ExactBounds(Times(table), minTS, maxTS)
    requires 0 <= minTS && maxTS < c.shards.Newest().end
    ensures CoreInvariant(c.(store := CreateIn(c.store, table, minTS, maxTS)))
  {
    hide MemInvariant, WellFormedTable, ExactBounds, Times, ListedOnce, StoreInvariant, ShardInvariant;
    CreateKeepsStore(c.store, table, minTS, maxTS);
    NewIdFresh(c.store);
  }

  // ----- sweeping -----

  function MarkOld<V>(s: StoreV<V>, cutoff: int): StoreV<V> {
    s.(blocks := map id | id in s.blocks :: if s.blocks[id].maxTS <= cutoff then ArchiveBlock(s.blocks[id])
                                            else s.blocks[id])
  }

  /** `Sweep` with this cutoff. */
  function SweepCore<V>(c: Core<V>, cutoff: int): Core<V> {
    Core(c.mem, ArchiveEnded(c.shards, cutoff), ReclaimIn(MarkOld(c.store, cutoff)))
  }

  lemma MarkOldShrinks<V>(s: StoreV<V>, cutoff: int)
    requires StoreInvariant(s)
    ensures Shrinks(s, MarkOld(s, cutoff))
    ensures forall id :: Openable(MarkOld(s, cutoff), id) <==> Openable(s, id) && s.blocks[id].maxTS > cutoff
  {
    assert MarkOld(s, cutoff).blocks.Keys == s.blocks.Keys;
    assert |MarkOld(s, cutoff).blocks| == |MarkOld(s, cutoff).blocks.Keys|;
  }

  lemma ReclaimOpenable<V>(s: StoreV<V>, id: nat)
    ensures Openable(ReclaimIn(s), id) <==> Openable(s, id)
    ensures Openable(s, id) ==> ReclaimIn(s).blocks[id] == s.blocks[id]
  {
  }

  /** A sweep newly archives exactly the openable blocks all of whose points are at or before
      the cutoff; every other block stays as it was. */
  lemma SweepArchivesOld<V>(c: Core<V>, cutoff: int, id: nat)
    requires CoreInvariant(c)
    ensures Openable(SweepCore(c, cutoff).store, id) <==> Openable(c.store, id) && c.store.blocks[id].maxTS > cutoff
    ensures Openable(SweepCore(c, cutoff).store, id) ==> SweepCore(c, cutoff).store.blocks[id] == c.store.blocks[id]
    ensures Openable(c.store, id) ==>
              (c.store.blocks[id].maxTS <= cutoff <==> forall ts :: ts in Times(c.store.blocks[id].byID) ==>
                                                                      ts <= cutoff)
  {
    hide ShardInvariant, MemInvariant, ListingGood, BelowNewestEnd, StoreInvariant, ReclaimIn, MarkOld, GoodBlock,
      Times;
    InvariantShape(c.shards);
    var marked := MarkOld(c.store, cutoff);
    MarkOldShrinks(c.store, cutoff);
    ReclaimOpenable(marked, id);
    if Openable(marked, id) { MarkOldKeeps(c.store, cutoff, id); }
    if id in c.store.blocks {
      GoodBlockBounds(c.store.blocks[id], c.shards.Newest().end);
    }
  }

  /** A sweep takes every block archived by then, now or before, that has no readers, and no other. */
  lemma SweepTakes<V>(c: Core<V>, cutoff: int, id: nat)
    ensures id in SweepCore(c, cutoff).store.blocks
       <==> id in c.store.blocks
            && !(c.store.blocks[id].refs == 0 && (c.store.blocks[id].archived || c.store.blocks[id].maxTS <= cutoff))
  {
    ReclaimTakes(MarkOld(c.store, cutoff), id);
  }

  /** A sweep archives the shards ended by its cutoff, except the newest, and changes nothing else about
      the shards. */
  lemma SweepArchivesShards<V>(c: Core<V>, cutoff: int, i: nat)
    requires ShardInvariant(c.shards) && i < |c.shards.shards|
    ensures (var before, after := c.shards.shards, SweepCore(c, cutoff).shards.shards;
             && SweepCore(c, cutoff).shards == c.shards.(shards := after) && |after| == |before|
             && after[i] == before[i].(state := if i < |before| - 1 && before[i].end <= cutoff then ShardArchived
                            else before[i].state))
    ensures SweepCore(c, cutoff).mem == c.mem
  {
  }

  lemma GoodBlockBounds<V>(b: BlockV<V>, end: int)
    requires GoodBlock(b, end)
    ensures b.maxTS in Times(b.byID) && forall ts :: ts in Times(b.byID) ==> ts <= b.maxTS
  {
  }

  lemma MarkOldKeeps<V>(s: StoreV<V>, cutoff: int, id: nat)
    requires Openable(MarkOld(s, cutoff), id)
    ensures MarkOld(s, cutoff).blocks[id] == s.blocks[id]
  {
  }

  /** A sweep keeps the invariant: an archived shard never owns a block that can be opened. */
  lemma SweepKeeps<V>(c: Core<V>, cutoff: int)
    requires CoreInvariant(c)
    ensures CoreInvariant(SweepCore(c, cutoff))
  {
    hide ShardInvariant, MemInvariant, WellFormedTable, ExactBounds, Times, StoreInvariant, ListedOnce, ReclaimIn,
      MarkOld, Shrinks, Openable;
    InvariantShape(c.shards);
    var marked := MarkOld(c.store, cutoff);
    var swept := ReclaimIn(marked);
    MarkOldShrinks(c.store, cutoff);
    ShrinksStore(c.store, marked);
    ReclaimShrinks(marked);
    ShrinksTwice(c.store, marked, swept);
    ShrunkInvariant(c, swept);
    ArchiveAnyKeeps(c.shards, cutoff);
    ArchivedShape(c.shards, cutoff);
    var shards := ArchiveEnded(c.shards, cutoff);
    forall i, id | 0 <= i < |shards.shards| && id in shards.shards[i].blocks
      ensures ListedWell(shards.shards[i], swept, id)
    {
      assert ListedWell(c.shards.shards[i], c.store, id);
      assert ListedWell(c.shards.shards[i], swept, id);
      ReclaimOpenable(marked, id);
      OpenableStored(c.store, id);
    }
  }

  lemma OpenableStored<V>(s: StoreV<V>, id: nat)
    ensures Openable(s, id) ==> id in s.blocks
  {
  }

  lemma ArchivedShape(m: Shards, cutoff: int)
    requires ShardInvariant(m)
    ensures (var out := ArchiveEnded(m, cutoff);
             && out.Newest() == m.Newest()
             && (forall i :: 0 <= i < |m.shards| ==>
                               && out.shards[i].start == m.shards[i].start && out.shards[i].end == m.shards[i].end
                               && out.shards[i].blocks == m.shards[i].blocks
                               && (out.shards[i].state == ShardArchived ==>
                                     m.shards[i].state == ShardArchived || m.shards[i].end <= cutoff))
             && (ListedOnce(m.shards) ==> ListedOnce(out.shards)))
  {
  }
}
