/** Whole runs of the engine, and what each outcome of a compaction leaves behind. */
module EngineRuns {
  import opened Model
  import opened Memtable
  import opened Sharding
  import opened Storage
  import opened EngineState
  import opened EngineSteps
  import opened EngineQueries
  import opened Downsample

  // ----- runs -----

  /** One call. `order` is the order the flushed map happens to be walked in. */
  datatype EngineOp =
    | OpAppend(p: Point<real>, order: seq<nat>)
    | OpFlush(order: seq<nat>)
    | OpForceRotate
    | OpCompact(id: nat)
    | OpSweep(cutoff: int)

  /** What does not change during a run: the flush threshold and the downsample step. */
  datatype Settings = Settings(threshold: int, step: int)

  ghost predicate Next(settings: Settings, a: Core<real>, op: EngineOp, b: Core<real>)
    requires a.shards.shards != [] && a.shards.window > 0
  {
    match op
    case OpAppend(p, order) =>
      var appended := AppendCore(a, p);
      if Routable(a.shards, p.ts) && appended.mem.points >= settings.threshold then
        IsOrder(order, appended.mem.byID) && b == FlushCore(appended, order).0
      else b == appended
    case OpFlush(order) => IsOrder(order, a.mem.byID) && b == FlushCore(a, order).0
    case OpForceRotate => b == a.(shards := RotateShards(a.shards))
    case OpCompact(id) => b == CompactCore(a, id, EffectiveStep(settings.step)).0
    case OpSweep(cutoff) => b == SweepCore(a, cutoff)
  }

  ghost predicate IsEngineRun(settings: Settings, states: seq<Core<real>>, ops: seq<EngineOp>) {
    && |states| == |ops| + 1
    && forall i :: 0 <= i < |ops| ==>
                     states[i].shards.shards != [] && states[i].shards.window > 0
                     && Next(settings, states[i], ops[i], states[i + 1])
  }

  lemma FlushPlainWindow<V>(c: Core<V>)
    requires c.shards.shards != []
    ensures FlushPlain(c).shards.window == c.shards.window
    ensures FlushPlain(c).shards.shards != [] && FlushPlain(c).shards.Newest().start == c.shards.Newest().start
    ensures |FlushPlain(c).shards.shards| == |c.shards.shards|
    ensures c.mem.points > 0 ==> FlushPlain(c).mem == EmptyMem()
  {
  }

  lemma CompactWindow(c: Core<real>, id: nat, step: int)
    requires ShardInvariant(c.shards) && step > 0
    requires id in c.store.blocks ==> c.store.blocks[id].minTS < c.shards.Newest().end
    ensures (var d := CompactCore(c, id, step).0;
             && d.shards.window == c.shards.window && d.mem == c.mem
             && d.shards.shards != [] && d.shards.Newest().start == c.shards.Newest().start
             && |d.shards.shards| == |c.shards.shards|)
  {
    hide ShardInvariant, CompactTable, ReleasedAfterCompaction, HeldForCompaction, CreateIn, Times;
    InvariantShape(c.shards);
  }

  lemma StoredBelowEnd<V>(c: Core<V>, id: nat)
    requires CoreInvariant(c) && id in c.store.blocks
    ensures ShardInvariant(c.shards) && c.store.blocks[id].minTS < c.shards.Newest().end
  {
    hide ShardInvariant, Times, WellFormedTable;
    InvariantShape(c.shards);
    assert GoodBlock(c.store.blocks[id], c.shards.Newest().end);
  }

  /** The call is a compaction whose output starts before the shard that is to list it. */
  ghost predicate Breaks(settings: Settings, a: Core<real>, op: EngineOp)
    requires a.shards.shards != []
  {
    op.OpCompact? && Escapes(a, op.id, EffectiveStep(settings.step))
  }

  /** A call keeps the invariant unless it is such a compaction, and always the shard width. */
  lemma NextKeeps(settings: Settings, a: Core<real>, op: EngineOp, b: Core<real>)
    requires CoreInvariant(a) && a.shards.window > 0 && a.shards.shards != []
    requires Next(settings, a, op, b)
    ensures CoreInvariant(b) <==> !Breaks(settings, a, op)
    ensures b.shards.window == a.shards.window
  {
    hide CoreInvariant, FlushCore, FlushPlain, CompactCore, SweepCore, AppendCore, RotateShards, MovesOn, Escapes;
    match op {
      case OpAppend(p, order) =>
        AppendKeeps(a, p);
        AppendWindow(a, p);
        if Routable(a.shards, p.ts) && AppendCore(a, p).mem.points >= settings.threshold {
          FlushKeeps(AppendCore(a, p), order);
          FlushPlainWindow(AppendCore(a, p));
        }
      case OpFlush(order) =>
        FlushKeeps(a, order);
        FlushPlainWindow(a);
      case OpForceRotate =>
        CoreShape(a);
        RotateMoves(a.shards);
        MovedInvariant(a, RotateShards(a.shards));
        RotateWindow(a.shards);
      case OpCompact(id) =>
        CompactKeeps(a, id, EffectiveStep(settings.step));
        CoreShape(a);
        if id in a.store.blocks { StoredBelowEnd(a, id); }
        CompactWindow(a, id, EffectiveStep(settings.step));
      case OpSweep(cutoff) =>
        SweepKeeps(a, cutoff);
        SweepWindow(a, cutoff);
    }
  }

  lemma CoreShape<V>(c: Core<V>)
    requires CoreInvariant(c)
    ensures ShardInvariant(c.shards) && c.shards.shards != [] && c.shards.window > 0
  {
  }

  lemma AppendWindow<V>(c: Core<V>, p: Point<V>)
    requires c.shards.shards != [] && c.shards.window > 0
    ensures AppendCore(c, p).shards.window == c.shards.window && AppendCore(c, p).shards.shards != []
  {
  }

  lemma RotateWindow(m: Shards)
    requires m.shards != []
    ensures RotateShards(m).window == m.window
  {
  }

  lemma SweepWindow<V>(c: Core<V>, cutoff: int)
    ensures SweepCore(c, cutoff).shards.window == c.shards.window
  {
  }

  /** No compaction so far put its output where it starts before its shard. */
  ghost predicate NothingBreaks(settings: Settings, states: seq<Core<real>>, ops: seq<EngineOp>, n: nat)
    requires n <= |ops| <= |states|
  {
    forall k :: 0 <= k < n ==> states[k].shards.shards != [] && !Breaks(settings, states[k], ops[k])
  }

  /** Over every sequential run, as long as nothing breaks it, as nothing does with a downsample step
      that divides the shard window: the invariant holds, and a query over any range collects exactly
      the in-range points of the memtable and of every openable listed block, each block once. */
  lemma {:induction false} RunsAnswerCompletely(settings: Settings, states: seq<Core<real>>, ops: seq<EngineOp>, i: nat,
                                                series: nat, rng: QueryRange)
    requires IsEngineRun(settings, states, ops) && i < |states|
    requires CoreInvariant(states[0])
    requires NothingBreaks(settings, states, ops, i) || states[0].shards.window % EffectiveStep(settings.step) == 0
    ensures CoreInvariant(states[i]) && states[i].shards.window == states[0].shards.window
    ensures CollectBag(states[i], series, rng)
         == MemBag(states[i].mem, series, rng)
            + IdsBag(states[i].store, AllListed(states[i].shards.shards), series, rng)
    ensures DistinctIds(AllListed(states[i].shards.shards))
    decreases i
  {
    hide CoreInvariant, Next, CollectBag, AllListed, Escapes;
    if i > 0 {
      RunsAnswerCompletely(settings, states, ops, i - 1, series, rng);
      if ops[i - 1].OpCompact? && states[0].shards.window % EffectiveStep(settings.step) == 0 {
        DividingStays(states[i - 1], ops[i - 1].id, EffectiveStep(settings.step));
      }
      NextKeeps(settings, states[i - 1], ops[i - 1], states[i]);
    }
    QueriesAreComplete(states[i], series, rng, 0);
  }

  // ----- the outcomes of a compaction -----

  lemma HeldOpenable<V>(s: StoreV<V>, id: nat, other: nat)
    ensures Openable(HeldForCompaction(s, id), other) <==> Openable(s, other)
    ensures other != id && other in s.blocks ==> HeldForCompaction(s, id).blocks[other] == s.blocks[other]
    ensures Openable(s, id) ==> HeldForCompaction(s, id).blocks[id].byID == s.blocks[id].byID
    ensures Openable(s, id) ==> HeldForCompaction(s, id).blocks[id].refs > 0
  {
  }

  /** While the compactor holds its handle, its own reclaim never takes the source. */
  lemma SourceSurvivesReclaim<V>(s: StoreV<V>, id: nat, table: Table<V>, minTS: int, maxTS: int)
    requires StoreInvariant(s) && Openable(s, id)
    ensures id in ReclaimIn(ArchiveIn(HeldForCompaction(s, id), id)).blocks
    ensures id in ReclaimIn(ArchiveIn(CreateIn(HeldForCompaction(s, id), table, minTS, maxTS), id)).blocks
  {
  }

  /** What a refused compaction leaves behind. */
  ghost predicate Leaks(c: Core<real>, id: nat, table: Table<real>, d: Core<real>) {
    var made := c.store.nextID + 1;
    && id in c.store.blocks && Openable(d.store, id) && d.store.blocks[id].byID == c.store.blocks[id].byID
    && d.store.blocks[id].state == (if c.store.blocks[id].state == BlockImmutable then BlockCompacting
                                    else c.store.blocks[id].state)
    && d.shards == c.shards
    && Openable(d.store, made) && d.store.blocks[made].state == BlockImmutable && d.store.blocks[made].byID == table
    && !Lists(d.shards.shards, made)
  }

  lemma NothingListedAhead<V>(c: Core<V>)
    requires CoreInvariant(c)
    ensures !Lists(c.shards.shards, c.store.nextID + 1)
  {
    hide ShardInvariant, MemInvariant, BelowNewestEnd, ListedOnce, StoreInvariant, GoodBlock;
    forall i, x | 0 <= i < |c.shards.shards| && x in c.shards.shards[i].blocks ensures x <= c.store.nextID {
      assert ListedWell(c.shards.shards[i], c.store, x);
    }
  }

  lemma RefusedLeaks(c: Core<real>, id: nat, step: int)
    requires CoreInvariant(c) && step > 0 && Openable(c.store, id)
    requires c.shards.shards != [] && c.shards.window > 0
    ensures CompactCore(c, id, step).1.Err? ==>
              Leaks(c, id, CompactTable(c.store.blocks[id].byID, step), CompactCore(c, id, step).0)
  {
    hide CoreInvariant, CompactTable, Times, ReleasedAfterCompaction, RouteShards, AddBlockToNewest, Lists;
    NothingListedAhead(c);
    NewIdUnused(c);
  }

  lemma NewIdUnused<V>(c: Core<V>)
    requires CoreInvariant(c)
    ensures c.store.nextID + 1 !in c.store.blocks
  {
    hide ShardInvariant, MemInvariant, BelowNewestEnd, ListingGood, GoodBlock;
  }

  /** After every outcome the source can still be opened with the same points, or it held none,
      or its downsampled replacement can be opened and is listed in the very shard that listed
      the source. Compaction of an openable source with points succeeds exactly when its first
      point is at or after the newest shard's start. A refused one leaves the replacement behind,
      openable, immutable and listed nowhere, and the source no longer immutable. */
  lemma CompactOutcomes(c: Core<real>, id: nat, step: int)
    requires CoreInvariant(c) && step > 0 && Openable(c.store, id)
    requires c.shards.shards != [] && c.shards.window > 0
    ensures (var src := c.store.blocks[id];
             var d := CompactCore(c, id, step).0;
             var r := CompactCore(c, id, step).1;
             && (r.Ok? <==> src.minTS >= c.shards.Newest().start)
             && (r.Err? ==> r.error == BeforeActiveShard && Leaks(c, id, CompactTable(src.byID, step), d))
             && (r.Ok? ==>
                   && !Openable(d.store, id)
                   && Openable(d.store, r.value) && d.store.blocks[r.value].byID == CompactTable(src.byID, step)
                   && d.shards == AddBlockToNewest(c.shards, r.value)
                   && forall i :: 0 <= i < |c.shards.shards| && id in c.shards.shards[i].blocks ==>
                                    i == |c.shards.shards| - 1))
  {
    hide ShardInvariant, MemInvariant, BelowNewestEnd, ListedOnce, CompactTable, Times, HeldForCompaction,
      ReleasedAfterCompaction, Leaks;
    InvariantShape(c.shards);
    RefusedLeaks(c, id, step);
    var src := c.store.blocks[id];
    assert GoodBlock(src, c.shards.Newest().end);
    CompactedBounds(src.byID, step, src.minTS, src.maxTS);
    var table, held := CompactTable(src.byID, step), HeldForCompaction(c.store, id);
    var made := CreateIn(held, table, Least(Times(table)), Greatest(Times(table)));
    HeldShrinks(c.store, id);
    HeldOpenable(c.store, id, id);
    NewIdFresh(held);
    CreateKeepsStore(held, table, Least(Times(table)), Greatest(Times(table)));
    if Routable(c.shards, src.minTS) {
      ReleasedOpenable(made, id, made.nextID);
      OwnerIsNewest(c, id);
    }
  }

  /** A stored block starting in the newest window can only be listed there. */
  lemma OwnerIsNewest<V>(c: Core<V>, id: nat)
    requires CoreInvariant(c) && c.shards.shards != []
    requires id in c.store.blocks && c.store.blocks[id].minTS >= c.shards.Newest().start
    ensures forall i :: 0 <= i < |c.shards.shards| && id in c.shards.shards[i].blocks ==> i == |c.shards.shards| - 1
  {
    hide MemInvariant, BelowNewestEnd, ListedOnce, StoreInvariant, Times, WellFormedTable;
    assert GoodBlock(c.store.blocks[id], c.shards.Newest().end);
    forall i | 0 <= i < |c.shards.shards| && id in c.shards.shards[i].blocks ensures i == |c.shards.shards| - 1 {
      assert ListedWell(c.shards.shards[i], c.store, id);
    }
  }

  /** A block that is gone is no error, one that is archived already is; neither changes anything. */
  lemma CompactMissing(c: Core<real>, id: nat, step: int)
    requires c.shards.shards != [] && c.shards.window > 0 && step > 0 && !Openable(c.store, id)
    ensures CompactCore(c, id, step) == (c, if id in c.store.blocks then Err(AlreadyArchived) else Ok(0))
  {
  }

  /** A compaction that succeeds leaves no archived block in the store that nobody holds, except its own
      source, on which its handle was still open. */
  lemma CompactReclaims(c: Core<real>, id: nat, step: int)
    requires StoreInvariant(c.store) && step > 0 && Openable(c.store, id)
    requires c.shards.shards != [] && c.shards.window > 0
    ensures (var (d, r) := CompactCore(c, id, step);
             r.Ok? ==>
               && id in d.store.blocks && d.store.blocks[id].archived
               && d.store.blocks[id].refs == c.store.blocks[id].refs
               && forall x :: x in d.store.blocks && x != id && d.store.blocks[x].archived ==>
                                d.store.blocks[x].refs > 0)
  {
    hide CompactTable, Times, RouteShards, AddBlockToNewest, Least, Greatest, ReleasedAfterCompaction,
      HeldForCompaction, CreateIn;
    var held, table := HeldForCompaction(c.store, id), CompactTable(c.store.blocks[id].byID, step);
    var made := CreateIn(held, table, Least(Times(table)), Greatest(Times(table)));
    HeldCounts(c.store, id, table, Least(Times(table)), Greatest(Times(table)));
    ReleasedTakes(held, id);
    ReleasedTakes(made, id);
  }

  lemma HeldCounts<V>(s: StoreV<V>, id: nat, table: Table<V>, lo: int, hi: int)
    requires StoreInvariant(s) && Openable(s, id)
    ensures (var held := HeldForCompaction(s, id);
             var made := CreateIn(held, table, lo, hi);
             && id in held.blocks && held.blocks[id].refs == s.blocks[id].refs + 1
             && id in made.blocks && made.blocks[id].refs == s.blocks[id].refs + 1)
  {
  }

  lemma ReleasedTakes<V>(s: StoreV<V>, id: nat)
    requires id in s.blocks && s.blocks[id].refs > 0
    ensures (var b := ReleasedAfterCompaction(s, id).blocks;
             && id in b && b[id].archived && b[id].refs == s.blocks[id].refs - 1
             && forall x :: x in b && x != id && b[x].archived ==> b[x].refs > 0)
  {
    hide ReclaimIn;
    var a := ArchiveIn(s, id);
    forall x: nat
      ensures x in ReclaimIn(a).blocks <==> x in a.blocks && !(a.blocks[x].archived && a.blocks[x].refs == 0)
      ensures x in ReclaimIn(a).blocks ==> ReclaimIn(a).blocks[x] == a.blocks[x]
    {
      ReclaimTakes(a, x);
    }
  }

  /** With no points at all, the source is archived and nothing replaces it. */
  lemma CompactEmptySource(c: Core<real>, id: nat, step: int)
    requires StoreInvariant(c.store) && step > 0 && Openable(c.store, id)
    requires c.shards.shards != [] && c.shards.window > 0
    requires forall s :: s in c.store.blocks[id].byID ==> c.store.blocks[id].byID[s] == []
    ensures CompactCore(c, id, step).1 == Ok(0)
    ensures !Openable(CompactCore(c, id, step).0.store, id) && CompactCore(c, id, step).0.shards == c.shards
  {
    hide HeldForCompaction, ReleasedAfterCompaction, CompactPoints;
    var table := CompactTable(c.store.blocks[id].byID, step);
    assert table == map[];
    HeldShrinks(c.store, id);
    ReleasedOpenable(HeldForCompaction(c.store, id), id, id);
  }

  /** Block `made` stands in for block `id`, its newest timestamp short of the source's by less
      than one step. */
  ghost predicate ExpiresEarlyByLess<V>(before: StoreV<V>, id: nat, after: StoreV<V>, made: nat, step: int,
                                        cutoff: int) {
    && id in before.blocks && made in after.blocks
    && var src, out := before.blocks[id].maxTS, after.blocks[made].maxTS;
    && src - step < out <= src
    && (src <= cutoff ==> out <= cutoff)
    && (out <= cutoff ==> src < cutoff + step)
  }

  /** A replacement may be archived by a sweep early by less than one step, and never later. */
  lemma EarlyExpiryBounded(c: Core<real>, id: nat, step: int, cutoff: int)
    requires CoreInvariant(c) && step > 0 && Openable(c.store, id)
    requires c.shards.shards != [] && c.shards.window > 0 && c.store.blocks[id].minTS >= c.shards.Newest().start
    ensures ExpiresEarlyByLess(c.store, id, CompactCore(c, id, step).0.store, c.store.nextID + 1, step, cutoff)
  {
    hide ShardInvariant, MemInvariant, BelowNewestEnd, ListingGood, CompactTable, Times, HeldForCompaction,
      ReleasedAfterCompaction;
    InvariantShape(c.shards);
    var src := c.store.blocks[id];
    assert GoodBlock(src, c.shards.Newest().end);
    CompactedBounds(src.byID, step, src.minTS, src.maxTS);
    var table, held := CompactTable(src.byID, step), HeldForCompaction(c.store, id);
    var made := CreateIn(held, table, Least(Times(table)), Greatest(Times(table)));
    HeldShrinks(c.store, id);
    NewIdFresh(held);
    HeldOpenable(c.store, id, id);
    CreateKeepsStore(held, table, Least(Times(table)), Greatest(Times(table)));
    ReleasedOpenable(made, id, made.nextID);
  }
}
