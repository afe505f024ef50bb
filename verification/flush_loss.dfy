/** When a flush loses points: only after a rotation since the previous flush. */
module FlushLoss {
  import opened Model
  import opened Seqs
  import opened Memtable
  import opened Sharding
  import opened Storage
  import opened EngineState
  import opened EngineSteps
  import opened EngineQueries
  import opened EngineRuns

  // ----- what every run keeps, at any clock time and with any downsample step -----

  ghost predicate Shape(m: Shards) {
    m.window > 0 && m.shards != [] && m.Newest().end == m.Newest().start + m.window
  }

  ghost predicate Known<V>(c: Core<V>) {
    forall i, id :: 0 <= i < |c.shards.shards| && id in c.shards.shards[i].blocks ==> id <= c.store.nextID
  }

  ghost predicate Flows<V>(c: Core<V>) {
    Shape(c.shards) && MemInvariant(c.mem) && BelowNewestEnd(c) && Known(c)
  }

  /** No buffered point lies before the newest window. */
  ghost predicate NothingStale<V>(c: Core<V>) {
    c.shards.shards != [] && forall ts :: ts in Times(c.mem.byID) ==> ts >= c.shards.Newest().start
  }

  /** The newest window has not moved back, and while it stays nothing falls behind it. */
  ghost predicate Forward<V>(a: Core<V>, b: Core<V>)
    requires a.shards.shards != []
  {
    && b.shards.shards != [] && a.shards.Newest().start <= b.shards.Newest().start
    && (NothingStale(a) && a.shards.Newest().start == b.shards.Newest().start ==> NothingStale(b))
  }

  /** Later shards: the old ones keep window and blocks, new ones are empty. */
  ghost predicate Later(a: Shards, b: Shards)
    requires a.shards != []
  {
    && Shape(b) && |b.shards| >= |a.shards|
    && (forall i :: 0 <= i < |a.shards| ==>
                      && b.shards[i].start == a.shards[i].start && b.shards[i].end == a.shards[i].end
                      && b.shards[i].blocks == a.shards[i].blocks)
    && (forall i :: |a.shards| <= i < |b.shards| ==> b.shards[i].blocks == [])
    && a.Newest().start <= b.Newest().start && a.Newest().end <= b.Newest().end
  }

  lemma AlignAbove(ts: int, n: int)
    requires n > 0
    ensures ts < Align(ts, n) + n
  {
    if ts >= 0 {
      AlignNonNegative(ts, n);
    } else {
      AlignNonNegative(-ts, n);
      AlignNegated(-ts, n);
    }
  }

  lemma RouteLater(m: Shards, ts: int)
    requires Shape(m)
    ensures Later(m, RouteShards(m, ts)) && ts < RouteShards(m, ts).Newest().end
  {
    hide Align;
    AlignAbove(ts, m.window);
  }

  lemma RotateLater(m: Shards)
    requires Shape(m)
    ensures Later(m, RotateShards(m))
  {
  }

  lemma SweepLater(m: Shards, cutoff: int)
    requires Shape(m)
    ensures Later(m, ArchiveEnded(m, cutoff))
  {
  }

  lemma CoreFlows<V>(c: Core<V>)
    requires CoreInvariant(c)
    ensures Flows(c)
  {
    hide MemInvariant, BelowNewestEnd, StoreInvariant, GoodBlock, ListedOnce;
    forall i, id | 0 <= i < |c.shards.shards| && id in c.shards.shards[i].blocks ensures id <= c.store.nextID {
      assert ListedWell(c.shards.shards[i], c.store, id);
    }
  }

  /** A new engine, at any clock time. */
  lemma NewFlows<V>(window: int, now: int)
    requires window > 0
    ensures Flows(NewCore<V>(window, now))
  {
    hide Align;
    EmptyMemGood<V>(NewCore<V>(window, now).shards);
  }

  lemma FlowShape<V>(c: Core<V>)
    requires Flows(c)
    ensures c.shards.shards != [] && c.shards.window > 0
  {
  }

  lemma MovedFlows<V>(c: Core<V>, shards: Shards)
    requires Flows(c) && c.shards.shards != [] && Later(c.shards, shards)
    ensures Flows(c.(shards := shards))
  {
    hide MemInvariant, Times;
  }

  lemma AppendFlows<V>(c: Core<V>, p: Point<V>)
    requires Flows(c) && c.shards.shards != [] && c.shards.window > 0
    ensures Flows(AppendCore(c, p)) && Forward(c, AppendCore(c, p))
  {
    hide Shape, MemInvariant, Times, Known, MemWrite, RouteShards;
    if Routable(c.shards, p.ts) {
      RouteLater(c.shards, p.ts);
      MovedFlows(c, RouteShards(c.shards, p.ts));
      WriteKeepsInvariant(c.mem, p);
      TableOf(c.mem);
      WriteTable(c.mem, p);
      KnownAlone(c.(shards := RouteShards(c.shards, p.ts)), MemWrite(c.mem, p));
    }
  }

  lemma TableOf<V>(m: Mem<V>)
    requires MemInvariant(m)
    ensures WellFormedTable(m.byID)
  {
  }

  lemma KnownAlone<V>(c: Core<V>, mem: Mem<V>)
    ensures Known(c.(mem := mem)) <==> Known(c)
  {
  }

  lemma ListedFlows<V>(c: Core<V>, id: nat)
    requires Flows(c) && c.shards.shards != [] && id <= c.store.nextID
    ensures Flows(c.(shards := AddBlockToNewest(c.shards, id)))
    ensures AddBlockToNewest(c.shards, id).Newest().start == c.shards.Newest().start
  {
    hide MemInvariant, Times;
  }

  lemma StoredFlows<V>(c: Core<V>, store: StoreV<V>)
    requires Flows(c) && c.store.nextID <= store.nextID
    ensures Flows(c.(store := store))
  {
    hide Shape, MemInvariant, Times;
  }

  lemma EmptiedFlows<V>(c: Core<V>)
    requires Flows(c)
    ensures Flows(c.(mem := EmptyMem())) && NothingStale(c.(mem := EmptyMem()))
  {
    hide Shape, MemInvariant, Times;
    FlowShape(c);
    EmptyMemGood<V>(c.shards);
    KnownAlone(c, EmptyMem());
  }

  lemma NoneBuffered<V>(c: Core<V>)
    requires Flows(c) && c.mem.points == 0
    ensures NothingStale(c)
  {
    FlowShape(c);
  }

  lemma FlushFlows<V>(c: Core<V>, order: seq<nat>)
    requires Flows(c) && c.shards.shards != [] && c.shards.window > 0 && IsOrder(order, c.mem.byID)
    ensures FlushCore(c, order) == (FlushPlain(c), true)
    ensures Flows(FlushPlain(c)) && Forward(c, FlushPlain(c)) && NothingStale(FlushPlain(c))
    ensures FlushPlain(c).shards.shards != [] && FlushPlain(c).shards.Newest().start == c.shards.Newest().start
  {
    hide Shape, Times, KeptFrom, Known, FlushCore, AddBlockToNewest, NothingStale, CreateIn;
    TableOf(c.mem);
    FlushIsPlain(c, order);
    FlushPlainWindow(c);
    var kept := KeptFrom(c.mem.byID, c.shards.Newest().start);
    if c.mem.points == 0 {
      NoneBuffered(c);
    } else {
      EmptiedFlows(c);
      var e := c.(mem := EmptyMem());
      var made := CreateIn(c.store, kept, Least(Times(kept)), Greatest(Times(kept)));
      CreatedId(c.store, kept, Least(Times(kept)), Greatest(Times(kept)));
      StoredFlows(e, made);
      ListedFlows(e.(store := made), made.nextID);
      EmptyStale(FlushPlain(c));
    }
  }

  lemma EmptyStale<V>(c: Core<V>)
    requires c.shards.shards != [] && c.mem == EmptyMem()
    ensures NothingStale(c)
  {
    EmptyMemGood<V>(c.shards);
  }

  lemma SameBuffer<V>(a: Core<V>, b: Core<V>)
    requires a.shards.shards != [] && b.shards.shards != [] && a.mem == b.mem
    requires a.shards.Newest().start <= b.shards.Newest().start
    ensures Forward(a, b)
  {
    hide Times;
  }

  lemma RotateFlows<V>(c: Core<V>)
    requires Flows(c) && c.shards.shards != []
    ensures Flows(c.(shards := RotateShards(c.shards))) && Forward(c, c.(shards := RotateShards(c.shards)))
  {
    hide Shape, MemInvariant, Times, Known, RotateShards;
    RotateLater(c.shards);
    MovedFlows(c, RotateShards(c.shards));
    SameBuffer(c, c.(shards := RotateShards(c.shards)));
  }

  lemma SweepFlows<V>(c: Core<V>, cutoff: int)
    requires Flows(c) && c.shards.shards != []
    ensures Flows(SweepCore(c, cutoff)) && Forward(c, SweepCore(c, cutoff))
  {
    hide Shape, MemInvariant, Times, MarkOld, ReclaimIn, ArchiveEnded, Known;
    SweepLater(c.shards, cutoff);
    SweptIds(c.store, cutoff);
    MovedFlows(c, ArchiveEnded(c.shards, cutoff));
    StoredFlows(c.(shards := ArchiveEnded(c.shards, cutoff)), SweepCore(c, cutoff).store);
    SameBuffer(c, SweepCore(c, cutoff));
  }

  lemma SweptIds<V>(s: StoreV<V>, cutoff: int)
    ensures ReclaimIn(MarkOld(s, cutoff)).nextID == s.nextID
  {
  }

  /** A compaction, wherever its output comes to lie. */
  lemma CompactFlows(c: Core<real>, id: nat, step: int)
    requires Flows(c) && c.shards.shards != [] && c.shards.window > 0 && step > 0
    ensures Flows(CompactCore(c, id, step).0) && Forward(c, CompactCore(c, id, step).0)
  {
    hide Shape, MemInvariant, Times, Known, BelowNewestEnd, RouteShards, AddBlockToNewest, CompactTable;
    var d := CompactCore(c, id, step).0;
    CompactIds(c, id, step);
    if d.shards == c.shards {
      StoredFlows(c, d.store);
    } else {
      var ts := c.store.blocks[id].minTS;
      RouteLater(c.shards, ts);
      var routed := c.(shards := RouteShards(c.shards, ts));
      MovedFlows(c, RouteShards(c.shards, ts));
      StoredFlows(routed, d.store);
      ListedFlows(routed.(store := d.store), c.store.nextID + 1);
    }
    SameBuffer(c, d);
  }

  lemma CompactIds(c: Core<real>, id: nat, step: int)
    requires c.shards.shards != [] && c.shards.window > 0 && step > 0
    ensures (var d := CompactCore(c, id, step).0;
             && d.mem == c.mem && c.store.nextID <= d.store.nextID
             && (d.shards == c.shards
                 || (&& id in c.store.blocks && Routable(c.shards, c.store.blocks[id].minTS)
                     && d.shards
                        == AddBlockToNewest(RouteShards(c.shards, c.store.blocks[id].minTS), c.store.nextID + 1)
                     && d.store.nextID == c.store.nextID + 1)))
  {
    hide RouteShards, AddBlockToNewest, CompactTable, Times;
  }

  lemma NextFlows(settings: Settings, a: Core<real>, op: EngineOp, b: Core<real>)
    requires Flows(a) && a.shards.shards != [] && a.shards.window > 0 && Next(settings, a, op, b)
    ensures Flows(b) && Forward(a, b) && b.shards.shards != [] && b.shards.window > 0
  {
    hide Flows, FlushCore, FlushPlain, CompactCore, SweepCore, AppendCore, RotateShards, NothingStale;
    match op {
      case OpAppend(p, order) =>
        AppendFlows(a, p);
        AppendWindow(a, p);
        if Routable(a.shards, p.ts) && AppendCore(a, p).mem.points >= settings.threshold {
          FlushFlows(AppendCore(a, p), order);
        }
      case OpFlush(order) => FlushFlows(a, order);
      case OpForceRotate => RotateFlows(a);
      case OpCompact(id) => CompactFlows(a, id, EffectiveStep(settings.step));
      case OpSweep(cutoff) => SweepFlows(a, cutoff);
    }
    FlowShape(b);
  }

  lemma {:induction false} RunFlows(settings: Settings, states: seq<Core<real>>, ops: seq<EngineOp>, i: nat, j: nat)
    requires IsEngineRun(settings, states, ops) && i <= j < |states| && Flows(states[i])
    ensures Flows(states[j])
    ensures states[i].shards.shards != [] && states[j].shards.shards != [] && states[j].shards.window > 0
    ensures states[i].shards.Newest().start <= states[j].shards.Newest().start
    ensures NothingStale(states[i]) && states[i].shards.Newest().start == states[j].shards.Newest().start ==>
              NothingStale(states[j])
    decreases j
  {
    hide Flows, Next, NothingStale;
    FlowShape(states[i]);
    if i < j {
      RunFlows(settings, states, ops, i, j - 1);
      NextFlows(settings, states[j - 1], ops[j - 1], states[j]);
    }
  }

  // ----- what such a flush does to answers -----

  lemma {:induction false} ShardsBagFrame<V>(a: StoreV<V>, b: StoreV<V>, shards: seq<ShardV>, series: nat,
                                             rng: QueryRange)
    requires forall sh, id :: sh in shards && id in sh.blocks ==>
                                BlockBag(a, id, series, rng) == BlockBag(b, id, series, rng)
    ensures ShardsBag(a, shards, series, rng) == ShardsBag(b, shards, series, rng)
    decreases |shards|
  {
    hide BlockBag, IdsBag;
    if shards != [] {
      var n := |shards| - 1;
      assert shards[n] in shards;
      ShardsBagFrame(a, b, shards[..n], series, rng);
      IdsBagFrame(a, b, shards[n].blocks, series, rng);
    }
  }

  lemma CreatedBag<V>(s: StoreV<V>, table: Table<V>, lo: int, hi: int, id: nat, series: nat, rng: QueryRange)
    ensures id <= s.nextID ==>
              BlockBag(CreateIn(s, table, lo, hi), id, series, rng) == BlockBag(s, id, series, rng)
    ensures BlockBag(CreateIn(s, table, lo, hi), s.nextID + 1, series, rng)
         == multiset(InRange(PointsOf(table, series), rng))
  {
    hide InRange;
  }

  /** One more block on the last of some shards. */
  lemma CollectedMore<V>(c: Core<V>, table: Table<V>, lo: int, hi: int, series: nat, rng: QueryRange)
    requires Known(c) && c.shards.shards != []
    ensures (var made, m := CreateIn(c.store, table, lo, hi), AddBlockToNewest(c.shards, c.store.nextID + 1);
             ShardsBag(made, Filter(CoveringFilter(rng), m.shards), series, rng)
             == ShardsBag(c.store, Filter(CoveringFilter(rng), c.shards.shards), series, rng)
             + (if Covers(c.shards.Newest(), rng) then multiset(InRange(PointsOf(table, series), rng))
                else multiset{}))
  {
    hide IdsBag, ShardsBag, Filter, InRange, BlockBag, CreateIn;
    var n, id := |c.shards.shards| - 1, c.store.nextID + 1;
    var before, sh, cov := c.shards.shards[..n], c.shards.shards[n], CoveringFilter(rng);
    var made, all := CreateIn(c.store, table, lo, hi), AddBlockToNewest(c.shards, id).shards;
    assert c.shards.shards == before + [sh] && all == before + [all[n]];
    FilterSnoc(cov, before, sh);
    FilterSnoc(cov, before, all[n]);
    forall x, y | x in Filter(cov, c.shards.shards) && y in x.blocks
      ensures BlockBag(c.store, y, series, rng) == BlockBag(made, y, series, rng)
    {
      FilterMember(cov, c.shards.shards, x);
      var i :| 0 <= i < |c.shards.shards| && c.shards.shards[i] == x;
      CreatedBag(c.store, table, lo, hi, y, series, rng);
    }
    ShardsBagFrame(c.store, made, Filter(cov, c.shards.shards), series, rng);
    CreatedBag(c.store, table, lo, hi, id, series, rng);
    if Covers(sh, rng) {
      ShardsBagSnoc(made, Filter(cov, before), sh, series, rng);
      ShardsBagSnoc(made, Filter(cov, before), all[n], series, rng);
      IdsBagSnoc(made, sh.blocks, id, series, rng);
    }
  }

  /** Where nothing is stale, every buffered point of an answer lies in a window that the range covers. */
  lemma BufferedCovered<V>(c: Core<V>, series: nat, rng: QueryRange)
    requires NothingStale(c) && BelowNewestEnd(c)
    ensures Covers(c.shards.Newest(), rng) || InRange(PointsOf(c.mem.byID, series), rng) == []
  {
    var pts := PointsOf(c.mem.byID, series);
    if !Covers(c.shards.Newest(), rng) {
      forall p | p in pts ensures !rng.Holds(p.ts) { TimeInTable(c.mem.byID, series, p); }
      FilterNone(InsideOf(rng), pts);
    }
  }

  lemma FreshKept<V>(c: Core<V>, series: nat)
    requires NothingStale(c)
    ensures PointsOf(KeptFrom(c.mem.byID, c.shards.Newest().start), series) == PointsOf(c.mem.byID, series)
  {
    var start, pts := c.shards.Newest().start, PointsOf(c.mem.byID, series);
    KeptPoints(c.mem.byID, start, series);
    forall p | p in pts ensures p.ts >= start { TimeInTable(c.mem.byID, series, p); }
    FilterAll(AtOrAfter(start), pts);
  }

  /** A flush with nothing stale changes no answer, whatever the blocks already stored look like. */
  lemma FreshFlush<V>(c: Core<V>, series: nat, rng: QueryRange)
    requires Flows(c) && NothingStale(c)
    ensures CollectBag(FlushPlain(c), series, rng) == CollectBag(c, series, rng)
  {
    hide Shape, NothingStale, Times, KeptFrom, ShardsBag, Filter, Known, CreateIn, AddBlockToNewest, Covers;
    FlowShape(c);
    if c.mem.points > 0 {
      var kept := KeptFrom(c.mem.byID, c.shards.Newest().start);
      FreshKept(c, series);
      BufferedCovered(c, series, rng);
      FilterNothing(InsideOf<V>(rng));
      CollectedMore(c, kept, Least(Times(kept)), Greatest(Times(kept)), series, rng);
    }
  }

  // ----- between two flushes -----

  /** This step flushes: a flush, or an append that fills the memtable. */
  ghost predicate Flushes(settings: Settings, a: Core<real>, op: EngineOp)
    requires a.shards.shards != [] && a.shards.window > 0
  {
    op.OpFlush? || (op.OpAppend? && Routable(a.shards, op.p.ts) && AppendCore(a, op.p).mem.points >= settings.threshold)
  }

  /** What is flushed: the state with the sample of such an append already in it. */
  ghost function AboutToFlush(a: Core<real>, op: EngineOp): Core<real>
    requires a.shards.shards != [] && a.shards.window > 0
  {
    if op.OpAppend? then AppendCore(a, op.p) else a
  }

  lemma AboutFlows(settings: Settings, a: Core<real>, op: EngineOp, b: Core<real>)
    requires Flows(a) && a.shards.shards != [] && a.shards.window > 0
    requires Next(settings, a, op, b) && Flushes(settings, a, op)
    ensures Flows(AboutToFlush(a, op)) && Forward(a, AboutToFlush(a, op))
    ensures b == FlushPlain(AboutToFlush(a, op)) && NothingStale(b)
  {
    hide Flows, FlushCore, FlushPlain, AppendCore, NothingStale;
    if op.OpAppend? {
      AppendFlows(a, op.p);
      AppendWindow(a, op.p);
      FlushFlows(AppendCore(a, op.p), op.order);
    } else {
      FlushFlows(a, op.order);
    }
  }

  /** Over every run, at any clock time and with any downsample step: a flush changes no answer if the
      newest window still starts where it did after some earlier flush. */
  lemma NoRotationNoLoss(settings: Settings, states: seq<Core<real>>, ops: seq<EngineOp>, i: nat, j: nat,
                         series: nat, rng: QueryRange)
    requires IsEngineRun(settings, states, ops) && i < j < |ops| && Flows(states[0])
    requires Flushes(settings, states[i], ops[i]) && Flushes(settings, states[j], ops[j])
    requires (var c := AboutToFlush(states[j], ops[j]);
              && c.shards.shards != [] && states[i + 1].shards.shards != []
              && c.shards.Newest().start == states[i + 1].shards.Newest().start)
    ensures CollectBag(states[j + 1], series, rng) == CollectBag(AboutToFlush(states[j], ops[j]), series, rng)
  {
    hide Flows, Next, NothingStale, Flushes, CollectBag, FlushPlain, AboutToFlush;
    RunFlows(settings, states, ops, 0, i);
    AboutFlows(settings, states[i], ops[i], states[i + 1]);
    NextFlows(settings, states[i], ops[i], states[i + 1]);
    RunFlows(settings, states, ops, i + 1, j);
    AboutFlows(settings, states[j], ops[j], states[j + 1]);
    FreshFlush(AboutToFlush(states[j], ops[j]), series, rng);
  }
}
