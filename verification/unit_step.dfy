/** A downsample step of one nanosecond moves no point, so it lets none leave its shard's window, not
    even before time zero. */
module UnitStep {
  import opened Model
  import opened Memtable
  import opened Sharding
  import opened Storage
  import opened EngineState
  import opened EngineSteps
  import opened EngineQueries
  import opened EngineRuns
  import opened FlushLoss

  /** The block's points are in order, its bounds exact, and it lies below `end`. */
  ghost predicate SoundBlock<V>(b: BlockV<V>, end: int) {
    WellFormedTable(b.byID) && ExactBounds(Times(b.byID), b.minTS, b.maxTS) && b.maxTS < end
  }

  ghost predicate Stored<V>(c: Core<V>) {
    && c.shards.shards != [] && StoreInvariant(c.store)
    && (forall id :: id in c.store.blocks ==> SoundBlock(c.store.blocks[id], c.shards.Newest().end))
    && forall i, id :: 0 <= i < |c.shards.shards| && id in c.shards.shards[i].blocks ==>
                         LiesIn(c.store, c.shards.shards[i], id)
  }

  ghost predicate Contained<V>(c: Core<V>) {
    Flows(c) && Stored(c)
  }

  lemma MovedStored<V>(c: Core<V>, shards: Shards)
    requires Stored(c) && Later(c.shards, shards)
    ensures Stored(c.(shards := shards))
  {
    hide StoreInvariant, WellFormedTable, ExactBounds, Times, Shape;
    var d := c.(shards := shards);
    assert d.shards.shards != [];
    forall i, id | 0 <= i < |shards.shards| && id in shards.shards[i].blocks
      ensures LiesIn(c.store, shards.shards[i], id)
    {
      assert LiesIn(c.store, c.shards.shards[i], id);
    }
  }

  lemma ShrunkStored<V>(c: Core<V>, store: StoreV<V>)
    requires Stored(c) && Shrinks(c.store, store)
    ensures Stored(c.(store := store))
  {
    hide StoreInvariant, WellFormedTable, ExactBounds, Times;
    forall i, id | 0 <= i < |c.shards.shards| && id in c.shards.shards[i].blocks
      ensures LiesIn(store, c.shards.shards[i], id)
    {
      assert LiesIn(c.store, c.shards.shards[i], id);
    }
  }

  lemma CreatedStored<V>(c: Core<V>, table: Table<V>, lo: int, hi: int)
    requires Contained(c) && WellFormedTable(table) && ExactBounds(Times(table), lo, hi) && c.shards.shards != []
    requires hi < c.shards.Newest().end
    ensures Stored(c.(store := CreateIn(c.store, table, lo, hi)))
  {
    hide StoreInvariant, WellFormedTable, ExactBounds, Times, MemInvariant, Shape, BelowNewestEnd;
    CreateKeepsStore(c.store, table, lo, hi);
    NewIdFresh(c.store);
    forall i, id | 0 <= i < |c.shards.shards| && id in c.shards.shards[i].blocks
      ensures LiesIn(CreateIn(c.store, table, lo, hi), c.shards.shards[i], id)
    {
      assert LiesIn(c.store, c.shards.shards[i], id);
    }
  }

  lemma ListedStored<V>(c: Core<V>, id: nat)
    requires Stored(c) && c.shards.shards != [] && LiesIn(c.store, c.shards.Newest(), id)
    ensures Stored(c.(shards := AddBlockToNewest(c.shards, id)))
  {
    hide StoreInvariant, WellFormedTable, ExactBounds, Times;
    var d := AddBlockToNewest(c.shards, id);
    forall i, x | 0 <= i < |d.shards| && x in d.shards[i].blocks ensures LiesIn(c.store, d.shards[i], x) {
      if x in c.shards.shards[i].blocks { assert LiesIn(c.store, c.shards.shards[i], x); }
    }
  }

  /** A new block inside the newest window. */
  lemma PublishStored<V>(c: Core<V>, table: Table<V>, lo: int, hi: int)
    requires Contained(c) && WellFormedTable(table) && ExactBounds(Times(table), lo, hi) && c.shards.shards != []
    requires c.shards.Newest().start <= lo && hi < c.shards.Newest().end
    ensures Stored(Core(c.mem, AddBlockToNewest(c.shards, c.store.nextID + 1), CreateIn(c.store, table, lo, hi)))
  {
    hide Stored, Flows, WellFormedTable, ExactBounds, Times;
    CreatedStored(c, table, lo, hi);
    ListedStored(c.(store := CreateIn(c.store, table, lo, hi)), c.store.nextID + 1);
  }

  lemma FlushStored<V>(c: Core<V>)
    requires Contained(c) && c.shards.shards != []
    ensures Stored(FlushPlain(c))
  {
    hide Stored, Shape, Known, WellFormedTable, KeptFrom, Times;
    var start := c.shards.Newest().start;
    var kept := KeptFrom(c.mem.byID, start);
    SameStored(c, EmptyMem());
    if c.mem.points > 0 && kept != map[] {
      KeptTable(c.mem.byID, start);
      KeptNonEmpty(c.mem.byID, start);
      KeptTimes(c.mem.byID, start, Least(Times(kept)));
      KeptTimes(c.mem.byID, start, Greatest(Times(kept)));
      EmptiedFlows(c);
      PublishStored(c.(mem := EmptyMem()), kept, Least(Times(kept)), Greatest(Times(kept)));
    }
  }

  lemma SameStored<V>(c: Core<V>, mem: Mem<V>)
    ensures Stored(c.(mem := mem)) <==> Stored(c)
  {
  }

  lemma AlignOne(ts: int)
    ensures Align(ts, 1) == ts
  {
  }

  lemma CompactSameTimes(t: Table<real>, lo: int, hi: int)
    requires WellFormedTable(t) && ExactBounds(Times(t), lo, hi)
    ensures (var out := CompactTable(t, 1);
             && out != map[] && WellFormedTable(out) && ExactBounds(Times(out), lo, hi)
             && Least(Times(out)) == lo && Greatest(Times(out)) == hi)
  {
    hide CompactTable, Times, Align, WellFormedTable, Least, Greatest;
    var out := CompactTable(t, 1);
    CompactedTable(t, 1);
    forall w: int ensures w in Times(out) <==> w in Times(t) {
      CompactedTimes(t, 1, w);
      forall ts: int ensures Align(ts, 1) == ts { AlignOne(ts); }
      AlignOne(w);
    }
    BoundsUnique(Times(out), lo, hi);
    if out == map[] { NoTimes<real>(); }
  }

  lemma StoredBlock<V>(c: Core<V>, id: nat)
    requires Stored(c) && id in c.store.blocks && c.shards.shards != []
    ensures (var b := c.store.blocks[id];
             WellFormedTable(b.byID) && ExactBounds(Times(b.byID), b.minTS, b.maxTS)
             && b.minTS <= b.maxTS < c.shards.Newest().end)
    ensures StoreInvariant(c.store)
  {
    hide Times;
  }

  lemma CompactStored(c: Core<real>, id: nat)
    requires Contained(c) && c.shards.shards != [] && c.shards.window > 0
    ensures Stored(CompactCore(c, id, 1).0)
  {
    hide Stored, Flows, CompactTable, Times, HeldForCompaction, ReleasedAfterCompaction, CreateIn, WellFormedTable,
      ExactBounds, Shrinks, StoreInvariant, AddBlockToNewest;
    if id in c.store.blocks && !c.store.blocks[id].archived {
      StoredBlock(c, id);
      var src := c.store.blocks[id];
      var table, held := CompactTable(src.byID, 1), HeldForCompaction(c.store, id);
      CompactSameTimes(src.byID, src.minTS, src.maxTS);
      HeldShrinks(c.store, id);
      ShrunkStored(c, held);
      SameIds(c.store, held);
      StoredFlows(c, held);
      var h := c.(store := held);
      CreatedId(held, table, src.minTS, src.maxTS);
      CreatedStored(h, table, src.minTS, src.maxTS);
      var made := CreateIn(held, table, src.minTS, src.maxTS);
      if Routable(c.shards, src.minTS) {
        PublishStored(h, table, src.minTS, src.maxTS);
        var l := Core(c.mem, AddBlockToNewest(c.shards, made.nextID), made);
        StoredStore(l);
        ReleasedShrinks(made, id);
        ShrunkStored(l, ReleasedAfterCompaction(made, id));
      } else {
        var u := h.(store := made);
        StoredStore(u);
        OpenShrinks(made, id);
        ShrunkStored(u, CloseIn(made, id));
      }
    }
  }

  lemma StoredStore<V>(c: Core<V>)
    requires Stored(c)
    ensures StoreInvariant(c.store)
  {
  }

  lemma SameIds<V>(a: StoreV<V>, b: StoreV<V>)
    requires Shrinks(a, b)
    ensures a.nextID == b.nextID
  {
  }

  lemma SweepStored<V>(c: Core<V>, cutoff: int)
    requires Contained(c) && c.shards.shards != []
    ensures Stored(SweepCore(c, cutoff))
  {
    hide Stored, MarkOld, ReclaimIn, ArchiveEnded, Shrinks, StoreInvariant, Known, BelowNewestEnd, MemInvariant, Shape;
    var marked := MarkOld(c.store, cutoff);
    StoredStore(c);
    MarkOldShrinks(c.store, cutoff);
    ShrinksStore(c.store, marked);
    ReclaimShrinks(marked);
    ShrinksTwice(c.store, marked, ReclaimIn(marked));
    ShrunkStored(c, ReclaimIn(marked));
    SweepLater(c.shards, cutoff);
    MovedStored(c.(store := ReclaimIn(marked)), ArchiveEnded(c.shards, cutoff));
    SameStored(c.(store := ReclaimIn(marked), shards := ArchiveEnded(c.shards, cutoff)), c.mem);
  }

  lemma AppendStored<V>(c: Core<V>, p: Point<V>)
    requires Contained(c) && c.shards.shards != [] && c.shards.window > 0
    ensures Stored(AppendCore(c, p))
  {
    hide Stored, Known, BelowNewestEnd, MemInvariant, Shape, MemWrite, RouteShards;
    if Routable(c.shards, p.ts) {
      RouteLater(c.shards, p.ts);
      MovedStored(c, RouteShards(c.shards, p.ts));
      SameStored(c.(shards := RouteShards(c.shards, p.ts)), MemWrite(c.mem, p));
    }
  }

  lemma NextContained(settings: Settings, a: Core<real>, op: EngineOp, b: Core<real>)
    requires Contained(a) && a.shards.shards != [] && a.shards.window > 0 && Next(settings, a, op, b)
    requires EffectiveStep(settings.step) == 1
    ensures Contained(b) && b.shards.shards != [] && b.shards.window > 0
  {
    hide Flows, Stored, FlushCore, FlushPlain, CompactCore, SweepCore, AppendCore, RotateShards, NothingStale;
    NextFlows(settings, a, op, b);
    match op {
      case OpAppend(p, order) =>
        AppendStored(a, p);
        AppendFlows(a, p);
        AppendWindow(a, p);
        if Routable(a.shards, p.ts) && AppendCore(a, p).mem.points >= settings.threshold {
          FlushFlows(AppendCore(a, p), order);
          FlushStored(AppendCore(a, p));
        }
      case OpFlush(order) =>
        FlushFlows(a, order);
        FlushStored(a);
      case OpForceRotate => RotateStored(a);
      case OpCompact(id) => CompactStored(a, id);
      case OpSweep(cutoff) => SweepStored(a, cutoff);
    }
  }

  lemma RotateStored<V>(c: Core<V>)
    requires Contained(c) && c.shards.shards != []
    ensures Stored(c.(shards := RotateShards(c.shards)))
  {
    hide Stored, Known, BelowNewestEnd, MemInvariant, Shape, RotateShards;
    RotateLater(c.shards);
    MovedStored(c, RotateShards(c.shards));
  }

  lemma ContainedComplete<V>(c: Core<V>, series: nat, rng: QueryRange)
    requires Contained(c)
    ensures CollectBag(c, series, rng) == FullBag(c, series, rng)
  {
    hide Flows, StoreInvariant, WellFormedTable, ExactBounds, Times, ShardsBag;
    forall sh, id | sh in c.shards.shards && id in sh.blocks ensures LiesIn(c.store, sh, id) {
      var i :| 0 <= i < |c.shards.shards| && c.shards.shards[i] == sh;
    }
    PrunedShards(c.store, c.shards.shards, series, rng);
  }

  lemma NewContained<V>(window: int, now: int)
    requires window > 0
    ensures Contained(NewCore<V>(window, now))
  {
    hide Align;
    NewFlows<V>(window, now);
  }

  /** Whatever the clock reads when the engine starts. */
  lemma {:induction false} RunContained(settings: Settings, states: seq<Core<real>>, ops: seq<EngineOp>, i: nat)
    requires IsEngineRun(settings, states, ops) && i < |states| && Contained(states[0])
    requires EffectiveStep(settings.step) == 1
    ensures Contained(states[i]) && states[i].shards.shards != [] && states[i].shards.window > 0
    decreases i
  {
    hide Next, Stored;
    if i > 0 {
      RunContained(settings, states, ops, i - 1);
      NextContained(settings, states[i - 1], ops[i - 1], states[i]);
    }
  }
}
