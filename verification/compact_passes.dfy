/** Passes over all blocks: when they fail, and why they then keep failing. */
module CompactPasses {
  import opened Model
  import opened Seqs
  import opened Memtable
  import opened Sharding
  import opened Storage
  import opened EngineState
  import opened EngineSteps
  import opened EngineRuns
  import opened FlushLoss
  import opened Compaction

  /** What every run keeps with any downsample step: all of the invariant but the listing. */
  ghost predicate Ready<V>(c: Core<V>) {
    && ShardInvariant(c.shards) && c.shards.shards != [] && c.shards.window > 0
    && MemInvariant(c.mem) && BelowNewestEnd(c) && StoreInvariant(c.store)
    && forall id :: id in c.store.blocks ==> GoodBlock(c.store.blocks[id], c.shards.Newest().end)
  }

  /** `CompactAll` would take up this block, and `Route` would refuse it. */
  ghost predicate Stuck<V>(c: Core<V>, id: nat) {
    && c.shards.shards != [] && Openable(c.store, id) && c.store.blocks[id].state == BlockImmutable
    && c.store.blocks[id].minTS < c.shards.Newest().start
  }

  lemma CoreReady<V>(c: Core<V>)
    requires CoreInvariant(c)
    ensures Ready(c)
  {
    hide ShardInvariant, MemInvariant, BelowNewestEnd, ListingGood, GoodBlock;
    InvariantShape(c.shards);
  }

  // ----- one block -----

  lemma ShrunkReady<V>(c: Core<V>, store: StoreV<V>)
    requires Ready(c) && Shrinks(c.store, store)
    ensures Ready(c.(store := store))
  {
    hide ShardInvariant, MemInvariant, WellFormedTable, ExactBounds, Times, StoreInvariant;
  }

  lemma CreatedReady<V>(c: Core<V>, table: Table<V>, lo: int, hi: int)
    requires Ready(c) && WellFormedTable(table) && ExactBounds(Times(table), lo, hi)
    requires 0 <= lo && hi < c.shards.Newest().end
    ensures Ready(c.(store := CreateIn(c.store, table, lo, hi)))
  {
    hide ShardInvariant, MemInvariant, WellFormedTable, ExactBounds, Times, StoreInvariant;
    CreateKeepsStore(c.store, table, lo, hi);
  }

  lemma ListedReady<V>(c: Core<V>, id: nat)
    requires Ready(c)
    ensures Ready(c.(shards := AddBlockToNewest(c.shards, id)))
    ensures AddBlockToNewest(c.shards, id).Newest().start == c.shards.Newest().start
    ensures AddBlockToNewest(c.shards, id).Newest().end == c.shards.Newest().end
  {
    hide ShardInvariant, MemInvariant, GoodBlock, Times, StoreInvariant;
    AddBlockKeeps(c.shards, id);
  }

  /** Nothing but block `id` and new ones can differ. */
  ghost predicate OthersStay<V>(a: StoreV<V>, b: StoreV<V>, id: nat) {
    && a.nextID <= b.nextID
    && forall x: nat :: x != id && x <= a.nextID ==>
                          && (Openable(b, x) <==> Openable(a, x)) && (Openable(a, x) ==> b.blocks[x] == a.blocks[x])
  }

  lemma HeldOthers<V>(s: StoreV<V>, id: nat)
    requires StoreInvariant(s)
    ensures OthersStay(s, HeldForCompaction(s, id), id) && HeldForCompaction(s, id).nextID == s.nextID
  {
  }

  lemma CreatedOthers<V>(s: StoreV<V>, table: Table<V>, lo: int, hi: int, id: nat)
    ensures OthersStay(s, CreateIn(s, table, lo, hi), id)
  {
  }

  lemma ClosedOthers<V>(s: StoreV<V>, id: nat)
    requires StoreInvariant(s)
    ensures OthersStay(s, CloseIn(s, id), id) && CloseIn(s, id).nextID == s.nextID
    ensures forall x :: x != id && x in s.blocks ==>
                          x in CloseIn(s, id).blocks && CloseIn(s, id).blocks[x] == s.blocks[x]
  {
  }

  lemma ReleasedOthers<V>(s: StoreV<V>, id: nat)
    requires StoreInvariant(s)
    ensures OthersStay(s, ReleasedAfterCompaction(s, id), id)
  {
    hide ReleasedAfterCompaction, StoreInvariant;
    assert ReleasedAfterCompaction(s, id).nextID == s.nextID by { ReleasedNext(s, id); }
    forall x: nat | x != id
      ensures Openable(ReleasedAfterCompaction(s, id), x) <==> Openable(s, x)
      ensures Openable(s, x) ==> ReleasedAfterCompaction(s, id).blocks[x] == s.blocks[x]
    {
      ReleasedOpenable(s, id, x);
    }
  }

  lemma ReleasedNext<V>(s: StoreV<V>, id: nat)
    ensures ReleasedAfterCompaction(s, id).nextID == s.nextID
  {
  }

  lemma OthersTwice<V>(a: StoreV<V>, b: StoreV<V>, c: StoreV<V>, id: nat)
    requires OthersStay(a, b, id) && OthersStay(b, c, id)
    ensures OthersStay(a, c, id)
  {
  }

  /** The replacement is made, whatever `Route` will say to it. */
  lemma TurnMakes(c: Core<real>, id: nat, step: int) returns (made: StoreV<real>)
    requires Ready(c) && step > 0 && Openable(c.store, id)
    ensures (var table := CompactTable(c.store.blocks[id].byID, step);
             && table != map[]
             && made == CreateIn(HeldForCompaction(c.store, id), table, Least(Times(table)), Greatest(Times(table))))
    ensures Ready(c.(store := made)) && OthersStay(c.store, made, id) && StoreInvariant(made)
    ensures made.nextID == c.store.nextID + 1 && Openable(made, made.nextID)
    ensures made.blocks[made.nextID].state == BlockImmutable
    ensures made.blocks[made.nextID].minTS <= c.store.blocks[id].minTS < c.shards.Newest().end
  {
    hide Ready, ShardInvariant, CompactTable, Times, HeldForCompaction, WellFormedTable, ExactBounds, Shrinks,
      OthersStay, StoreInvariant, Least, Greatest;
    var src := c.store.blocks[id];
    ReadyBlock(c, id);
    var table, held := CompactTable(src.byID, step), HeldForCompaction(c.store, id);
    CompactedBounds(src.byID, step, src.minTS, src.maxTS);
    CompactedTable(src.byID, step);
    AlignNonNegative(src.minTS, step);
    HeldShrinks(c.store, id);
    HeldOthers(c.store, id);
    ShrunkReady(c, held);
    var lo, hi := Least(Times(table)), Greatest(Times(table));
    made := CreateIn(held, table, lo, hi);
    CreatedReady(c.(store := held), table, lo, hi);
    CreatedOthers(held, table, lo, hi, id);
    ReadyStore(c.(store := made));
    OthersTwice(c.store, held, made, id);
  }

  lemma TurnRefused(c: Core<real>, id: nat, made: StoreV<real>)
    requires Ready(c.(store := made)) && OthersStay(c.store, made, id)
    requires id != made.nextID && Openable(made, made.nextID)
    requires made.blocks[made.nextID].state == BlockImmutable
    requires made.blocks[made.nextID].minTS < c.shards.Newest().start
    ensures Ready(c.(store := CloseIn(made, id))) && OthersStay(c.store, CloseIn(made, id), id)
    ensures Stuck(c.(store := CloseIn(made, id)), made.nextID)
  {
    hide Ready, Shrinks, OthersStay, StoreInvariant;
    ReadyStore(c.(store := made));
    ClosedOthers(made, id);
    OpenShrinks(made, id);
    ShrunkReady(c.(store := made), CloseIn(made, id));
    OthersTwice(c.store, made, CloseIn(made, id), id);
  }

  lemma TurnAccepted(c: Core<real>, id: nat, made: StoreV<real>)
    requires Ready(c.(store := made)) && OthersStay(c.store, made, id)
    ensures (var d := Core(c.mem, AddBlockToNewest(c.shards, made.nextID), ReleasedAfterCompaction(made, id));
             && Ready(d) && d.shards.Newest().start == c.shards.Newest().start && OthersStay(c.store, d.store, id))
  {
    hide Ready, Shrinks, OthersStay, StoreInvariant, AddBlockToNewest, ReleasedAfterCompaction;
    ReadyStore(c.(store := made));
    ListedReady(c.(store := made), made.nextID);
    ReleasedShrinks(made, id);
    ShrunkReady(Core(c.mem, AddBlockToNewest(c.shards, made.nextID), made), ReleasedAfterCompaction(made, id));
    ReleasedOthers(made, id);
    OthersTwice(c.store, made, ReleasedAfterCompaction(made, id), id);
  }

  /** A turn fails exactly if its block starts before the newest window; the replacement it leaves
      behind is stuck in turn. */
  lemma TurnOutcome(c: Core<real>, id: nat, step: int)
    requires Ready(c) && step > 0 && Openable(c.store, id)
    ensures (var (d, r) := CompactCore(c, id, step);
             && Ready(d) && d.mem == c.mem && d.shards.Newest().start == c.shards.Newest().start
             && OthersStay(c.store, d.store, id)
             && (r.Err? <==> c.store.blocks[id].minTS < c.shards.Newest().start)
             && (r.Err? ==> Stuck(d, c.store.nextID + 1)))
  {
    hide Ready, CompactTable, Times, HeldForCompaction, ReleasedAfterCompaction, OthersStay, StoreInvariant,
      AddBlockToNewest, CreateIn, CloseIn, Stuck;
    ReadyBlock(c, id);
    var made := TurnMakes(c, id, step);
    if Routable(c.shards, c.store.blocks[id].minTS) {
      TurnAccepted(c, id, made);
    } else {
      TurnRefused(c, id, made);
    }
  }

  lemma ReadyStore<V>(c: Core<V>)
    requires Ready(c)
    ensures StoreInvariant(c.store) && c.shards.shards != [] && c.shards.window > 0
  {
  }

  lemma ReadyBlock<V>(c: Core<V>, id: nat)
    requires Ready(c) && Openable(c.store, id)
    ensures (var b := c.store.blocks[id];
             && WellFormedTable(b.byID) && ExactBounds(Times(b.byID), b.minTS, b.maxTS)
             && 0 <= b.minTS <= b.maxTS < c.shards.Newest().end)
    ensures StoreInvariant(c.store) && c.shards.shards != [] && c.shards.window > 0
    ensures id <= c.store.nextID
  {
    hide Times;
    assert GoodBlock(c.store.blocks[id], c.shards.Newest().end);
  }

  // ----- a pass -----

  lemma StuckStays<V>(a: Core<V>, b: Core<V>, id: nat, x: nat)
    requires a.shards.shards != [] && b.shards.shards != [] && a.shards.Newest().start == b.shards.Newest().start
    requires OthersStay(a.store, b.store, id) && x != id && x <= a.store.nextID
    ensures Stuck(a, x) <==> Stuck(b, x)
  {
  }

  /** So far the pass has met no stuck block, or it has stopped at one and left another. */
  lemma {:induction false} PassOutcome(c: Core<real>, ids: seq<nat>, step: int)
    requires Ready(c) && step > 0 && NoRepeats(ids) && forall id :: id in ids ==> id <= c.store.nextID
    ensures (var p := CompactEach(c, ids, step);
             && Ready(p.core) && p.core.shards.Newest().start == c.shards.Newest().start
             && c.store.nextID <= p.core.store.nextID
             && (p.error.Some? <==> exists id :: id in ids && Stuck(c, id))
             && (p.error.None? ==>
                   forall x: nat :: x !in ids && x <= c.store.nextID ==> (Stuck(p.core, x) <==> Stuck(c, x)))
             && (p.error.Some? ==> exists x: nat :: x > c.store.nextID && Stuck(p.core, x)))
    decreases |ids|
  {
    hide Ready, Stuck, CompactCore, OthersStay;
    ReadyStore(c);
    if ids == [] {
    } else {
      var n := |ids| - 1;
      var before, id := CompactEach(c, ids[..n], step), ids[n];
      assert ids == ids[..n] + [id];
      forall x ensures x in ids <==> x in ids[..n] || x == id {}
      assert NoRepeats(ids[..n]) && id !in ids[..n];
      PassOutcome(c, ids[..n], step);
      if before.error.None? {
        PassTurn(c, before, id, step);
        assert Stuck(before.core, id) <==> Stuck(c, id);
      }
    }
  }

  /** One more turn of a pass that has not failed. */
  lemma PassTurn(c: Core<real>, before: CompactPass, id: nat, step: int)
    requires Ready(before.core) && c.shards.shards != [] && before.error.None? && step > 0
    requires before.core.shards.Newest().start == c.shards.Newest().start && c.store.nextID <= before.core.store.nextID
    ensures before.core.shards.shards != [] && before.core.shards.window > 0
    ensures (var p := CompactTurn(before, id, step);
             && Ready(p.core) && p.core.shards.Newest().start == c.shards.Newest().start
             && c.store.nextID <= p.core.store.nextID
             && (p.error.Some? <==> Stuck(before.core, id))
             && (forall x: nat :: x != id && x <= c.store.nextID ==> (Stuck(p.core, x) <==> Stuck(before.core, x)))
             && (p.error.Some? ==> exists x: nat :: x > c.store.nextID && Stuck(p.core, x)))
  {
    hide Ready, CompactCore, OthersStay;
    ReadyStore(before.core);
    if Openable(before.core.store, id) && before.core.store.blocks[id].state == BlockImmutable {
      TurnOutcome(before.core, id, step);
      var d := CompactCore(before.core, id, step).0;
      Grown(before.core.store, d.store, id);
      forall x: nat | x != id && x <= c.store.nextID ensures Stuck(d, x) <==> Stuck(before.core, x) {
        StuckStays(before.core, d, id, x);
      }
    }
  }

  lemma Grown<V>(a: StoreV<V>, b: StoreV<V>, id: nat)
    requires OthersStay(a, b, id)
    ensures a.nextID <= b.nextID
  {
  }

  lemma TurnCloses(c: Core<real>, id: nat, step: int)
    requires Ready(c) && step > 0 && Openable(c.store, id)
    ensures c.shards.shards != [] && c.shards.window > 0
    ensures Openable(CompactCore(c, id, step).0.store, id) <==> CompactCore(c, id, step).1.Err?
  {
    hide Ready, CompactTable, Times, HeldForCompaction, ReleasedAfterCompaction, OthersStay, StoreInvariant,
      AddBlockToNewest, Least, Greatest;
    ReadyBlock(c, id);
    var made := TurnMakes(c, id, step);
    ReleasedOpenable(made, id, id);
    HeldOpenable(c.store, id, id);
  }

  /** A pass counts exactly the blocks it compacted: those that could be opened before, and cannot now. */
  lemma {:induction false} PassCounts(c: Core<real>, ids: seq<nat>, step: int)
    requires Ready(c) && step > 0 && NoRepeats(ids) && forall id :: id in ids ==> id <= c.store.nextID
    ensures c.shards.shards != [] && c.shards.window > 0
    ensures (var p := CompactEach(c, ids, step);
             && Ready(p.core) && OnlyThese(c.store, p.core.store, ids)
             && p.done == |Closed(c.store, p.core.store, ids)|)
    decreases |ids|
  {
    hide Ready, CompactCore, OthersStay, OnlyThese, Closed;
    ReadyStore(c);
    if ids == [] {
      NoneClosed(c.store);
    } else {
      var n := |ids| - 1;
      var before, id := CompactEach(c, ids[..n], step), ids[n];
      assert ids == ids[..n] + [id];
      forall x ensures x in ids <==> x in ids[..n] || x == id {}
      assert NoRepeats(ids[..n]) && id !in ids[..n];
      PassCounts(c, ids[..n], step);
      ReadyStore(before.core);
      if before.error.None? && Openable(before.core.store, id) && before.core.store.blocks[id].state == BlockImmutable {
        TurnOutcome(before.core, id, step);
        TurnCloses(before.core, id, step);
        var (d, r) := CompactCore(before.core, id, step);
        OneMore(c.store, before.core.store, d.store, ids[..n], id);
      } else {
        SameSo(c.store, before.core.store, ids[..n], id);
      }
    }
  }

  /** The blocks among `ids` that can no longer be opened. */
  ghost function Closed<V>(a: StoreV<V>, b: StoreV<V>, ids: seq<nat>): set<nat> {
    set x | x in ids && Openable(a, x) && !Openable(b, x)
  }

  /** Nothing but the blocks among `ids` and new ones can differ. */
  ghost predicate OnlyThese<V>(a: StoreV<V>, b: StoreV<V>, ids: seq<nat>) {
    && a.nextID <= b.nextID
    && forall x: nat :: x !in ids && x <= a.nextID ==> (Openable(b, x) <==> Openable(a, x))
  }

  lemma NoneClosed<V>(s: StoreV<V>)
    ensures OnlyThese(s, s, []) && Closed(s, s, []) == {}
  {
  }

  lemma SameSo<V>(a: StoreV<V>, b: StoreV<V>, ids: seq<nat>, id: nat)
    requires OnlyThese(a, b, ids) && id !in ids && id <= a.nextID
    ensures OnlyThese(a, b, ids + [id]) && Closed(a, b, ids + [id]) == Closed(a, b, ids)
  {
  }

  lemma OneMore<V>(a: StoreV<V>, b: StoreV<V>, c: StoreV<V>, ids: seq<nat>, id: nat)
    requires OnlyThese(a, b, ids) && id !in ids && id <= a.nextID && Openable(b, id)
    requires OthersStay(b, c, id) && forall x :: x in ids ==> x <= a.nextID
    ensures OnlyThese(a, c, ids + [id])
    ensures |Closed(a, c, ids + [id])| == |Closed(a, b, ids)| + if Openable(c, id) then 0 else 1
  {
    assert Closed(a, c, ids + [id]) == Closed(a, b, ids) + if Openable(c, id) then {} else {id};
  }

  /** A pass over every block fails, in whatever order it visits them, if and only if some block is
      stuck. */
  lemma PassFailsIff(c: Core<real>, ids: seq<nat>, step: int)
    requires Ready(c) && step > 0 && NoRepeats(ids) && forall id: nat :: id in ids <==> id in c.store.blocks
    ensures c.shards.shards != [] && c.shards.window > 0
    ensures CompactEach(c, ids, step).error.Some? <==> exists id :: Stuck(c, id)
  {
    hide Ready, CompactEach;
    ReadyStore(c);
    IdsKnown(c);
    PassOutcome(c, ids, step);
    if id :| Stuck(c, id) { assert id in ids; }
  }

  lemma IdsKnown<V>(c: Core<V>)
    requires Ready(c)
    ensures forall id :: id in c.store.blocks ==> id <= c.store.nextID
  {
  }

  // ----- whole runs -----

  lemma MovedReady<V>(c: Core<V>, shards: Shards)
    requires Ready(c) && MovesOn(c.shards, shards)
    ensures Ready(c.(shards := shards))
  {
    hide ShardInvariant, MemInvariant, Times, StoreInvariant, WellFormedTable, ExactBounds;
    InvariantShape(shards);
  }

  lemma BufferReady<V>(c: Core<V>, mem: Mem<V>)
    requires Ready(c) && MemInvariant(mem) && BelowNewestEnd(c.(mem := mem))
    ensures Ready(c.(mem := mem))
  {
    hide ShardInvariant, MemInvariant, BelowNewestEnd, StoreInvariant, GoodBlock;
  }

  lemma AppendReady<V>(c: Core<V>, p: Point<V>)
    requires Ready(c)
    ensures c.shards.shards != [] && c.shards.window > 0 && Ready(AppendCore(c, p))
  {
    hide ShardInvariant, Times, GoodBlock, StoreInvariant, MovesOn, MemWrite, RouteShards, WellFormedTable, ExactBounds;
    if Routable(c.shards, p.ts) {
      var m := RouteShards(c.shards, p.ts);
      RouteMoves(c.shards, p.ts);
      MovedReady(c, m);
      WriteKeepsInvariant(c.mem, p);
      WriteTable(c.mem, p);
      BufferReady(c.(shards := m), MemWrite(c.mem, p));
    }
  }

  lemma EmptiedReady<V>(c: Core<V>)
    requires Ready(c)
    ensures Ready(c.(mem := EmptyMem()))
  {
    hide ShardInvariant, GoodBlock, StoreInvariant, Times;
    EmptyMemGood<V>(c.shards);
  }

  lemma FlushReady<V>(c: Core<V>, order: seq<nat>)
    requires Ready(c) && IsOrder(order, c.mem.byID)
    ensures c.shards.shards != [] && c.shards.window > 0
    ensures FlushCore(c, order) == (FlushPlain(c), true) && Ready(FlushPlain(c))
  {
    hide ShardInvariant, Times, KeptFrom, StoreInvariant, GoodBlock, CreateIn, AddBlockToNewest;
    InvariantShape(c.shards);
    FlushIsPlain(c, order);
    EmptiedReady(c);
    var start, e := c.shards.Newest().start, c.(mem := EmptyMem());
    var kept: Table<V> := KeptFrom(c.mem.byID, start);
    KeptNonEmpty(c.mem.byID, start);
    if c.mem.points > 0 && kept != map[] {
      var lo, hi := Least(Times(kept)), Greatest(Times(kept));
      KeptTable(c.mem.byID, start);
      KeptTimes(c.mem.byID, start, lo);
      KeptTimes(c.mem.byID, start, hi);
      CreatedReady(e, kept, lo, hi);
      CreatedId(c.store, kept, lo, hi);
      ListedReady(e.(store := CreateIn(c.store, kept, lo, hi)), c.store.nextID + 1);
    }
  }

  lemma RotateReady<V>(c: Core<V>)
    requires Ready(c)
    ensures c.shards.shards != [] && Ready(c.(shards := RotateShards(c.shards)))
  {
    hide MemInvariant, BelowNewestEnd, StoreInvariant, GoodBlock, ShardInvariant, RotateShards, MovesOn;
    RotateMoves(c.shards);
    MovedReady(c, RotateShards(c.shards));
  }

  lemma SweepReady<V>(c: Core<V>, cutoff: int)
    requires Ready(c)
    ensures Ready(SweepCore(c, cutoff))
  {
    hide MemInvariant, StoreInvariant, GoodBlock, ShardInvariant, MarkOld, ReclaimIn, Shrinks, Times;
    var marked := MarkOld(c.store, cutoff);
    MarkOldShrinks(c.store, cutoff);
    ShrinksStore(c.store, marked);
    ReclaimShrinks(marked);
    ShrinksTwice(c.store, marked, ReclaimIn(marked));
    ShrunkReady(c, ReclaimIn(marked));
    ArchiveAnyKeeps(c.shards, cutoff);
    InvariantShape(ArchiveEnded(c.shards, cutoff));
  }

  lemma CompactReady(c: Core<real>, id: nat, step: int)
    requires Ready(c) && step > 0
    ensures c.shards.shards != [] && c.shards.window > 0 && Ready(CompactCore(c, id, step).0)
  {
    hide Ready, CompactTable, Times, OthersStay;
    ReadyStore(c);
    if Openable(c.store, id) { TurnOutcome(c, id, step); }
  }

  /** Every call keeps this, with any downsample step. */
  lemma NextReady(settings: Settings, a: Core<real>, op: EngineOp, b: Core<real>)
    requires Ready(a) && a.shards.shards != [] && a.shards.window > 0 && Next(settings, a, op, b)
    ensures Ready(b) && b.shards.shards != [] && b.shards.window > 0
  {
    hide Ready, FlushCore, FlushPlain, CompactCore, SweepCore, AppendCore, RotateShards;
    match op {
      case OpAppend(p, order) =>
        AppendReady(a, p);
        AppendWindow(a, p);
        if Routable(a.shards, p.ts) && AppendCore(a, p).mem.points >= settings.threshold {
          FlushReady(AppendCore(a, p), order);
        }
      case OpFlush(order) => FlushReady(a, order);
      case OpForceRotate => RotateReady(a);
      case OpCompact(id) => CompactReady(a, id, EffectiveStep(settings.step));
      case OpSweep(cutoff) => SweepReady(a, cutoff);
    }
    ReadyStore(b);
  }

  /** The stored blocks stay as they are and new ones may come. */
  lemma StuckFurther<V>(a: Core<V>, b: Core<V>, id: nat)
    requires Stuck(a, id) && b.shards.shards != [] && a.shards.Newest().start <= b.shards.Newest().start
    requires id in b.store.blocks && b.store.blocks[id] == a.store.blocks[id]
    ensures Stuck(b, id)
  {
  }

  lemma FlushStores<V>(c: Core<V>, id: nat)
    requires c.shards.shards != [] && id in c.store.blocks && id <= c.store.nextID
    ensures id in FlushPlain(c).store.blocks && FlushPlain(c).store.blocks[id] == c.store.blocks[id]
  {
  }

  lemma AppendStores<V>(c: Core<V>, p: Point<V>)
    requires c.shards.shards != [] && c.shards.window > 0
    ensures AppendCore(c, p).store == c.store
  {
  }

  /** Once some block is stuck, some block is, until a sweep. */
  lemma NextStuck(settings: Settings, a: Core<real>, op: EngineOp, b: Core<real>, id: nat)
    requires Ready(a) && Flows(a) && a.shards.shards != [] && a.shards.window > 0 && Next(settings, a, op, b)
    requires Stuck(a, id) && !op.OpSweep?
    ensures exists x: nat :: Stuck(b, x)
  {
    hide Ready, Flows, FlushCore, FlushPlain, CompactCore, AppendCore, RotateShards, NothingStale, OthersStay;
    NextFlows(settings, a, op, b);
    IdsKnown(a);
    match op {
      case OpAppend(p, order) =>
        AppendReady(a, p);
        AppendWindow(a, p);
        AppendStores(a, p);
        if Routable(a.shards, p.ts) && AppendCore(a, p).mem.points >= settings.threshold {
          FlushReady(AppendCore(a, p), order);
          FlushStores(AppendCore(a, p), id);
        }
        StuckFurther(a, b, id);
      case OpFlush(order) =>
        FlushReady(a, order);
        FlushStores(a, id);
        StuckFurther(a, b, id);
      case OpForceRotate => StuckFurther(a, b, id);
      case OpCompact(other) => CompactStuck(a, other, EffectiveStep(settings.step), id);
    }
  }

  lemma CompactStuck(c: Core<real>, other: nat, step: int, id: nat)
    requires Ready(c) && c.shards.shards != [] && c.shards.window > 0 && step > 0 && Stuck(c, id)
    ensures exists x: nat :: Stuck(CompactCore(c, other, step).0, x)
  {
    hide Ready, OthersStay, CompactTable, HeldForCompaction, ReleasedAfterCompaction, Times, RouteShards;
    var d := CompactCore(c, other, step).0;
    IdsKnown(c);
    if Openable(c.store, other) {
      TurnOutcome(c, other, step);
      ReadyStore(d);
      if other != id { StuckStays(c, d, other, id); }
    } else {
      assert d == c;
    }
  }

  lemma {:induction false} RunReady(settings: Settings, states: seq<Core<real>>, ops: seq<EngineOp>, i: nat)
    requires IsEngineRun(settings, states, ops) && i < |states| && Ready(states[0]) && Flows(states[0])
    ensures Ready(states[i]) && Flows(states[i]) && states[i].shards.shards != [] && states[i].shards.window > 0
    decreases i
  {
    hide Ready, Flows, Next, NothingStale;
    ReadyStore(states[0]);
    if i > 0 {
      RunReady(settings, states, ops, i - 1);
      NextReady(settings, states[i - 1], ops[i - 1], states[i]);
      NextFlows(settings, states[i - 1], ops[i - 1], states[i]);
    }
  }

  lemma {:induction false} RunStuck(settings: Settings, states: seq<Core<real>>, ops: seq<EngineOp>, i: nat, j: nat)
    requires IsEngineRun(settings, states, ops) && i <= j < |states| && Ready(states[0]) && Flows(states[0])
    requires forall k :: i <= k < j ==> !ops[k].OpSweep?
    requires exists x: nat :: Stuck(states[i], x)
    ensures exists x: nat :: Stuck(states[j], x)
    decreases j
  {
    hide Ready, Flows, Next, Stuck;
    if i < j {
      RunStuck(settings, states, ops, i, j - 1);
      RunReady(settings, states, ops, j - 1);
      var x :| Stuck(states[j - 1], x);
      NextStuck(settings, states[j - 1], ops[j - 1], states[j], x);
    }
  }

  /** Once a pass fails, or would, every pass does at every later moment, in whatever order it visits
      the blocks, until a sweep has taken the blocks it stops at. */
  lemma PassesKeepFailing(settings: Settings, states: seq<Core<real>>, ops: seq<EngineOp>, i: nat, j: nat,
                          ids: seq<nat>, later: seq<nat>, step: int)
    requires IsEngineRun(settings, states, ops) && i <= j < |states| && CoreInvariant(states[0]) && step > 0
    requires forall k :: i <= k < j ==> !ops[k].OpSweep?
    requires NoRepeats(ids) && forall id: nat :: id in ids <==> id in states[i].store.blocks
    requires NoRepeats(later) && forall id: nat :: id in later <==> id in states[j].store.blocks
    ensures states[i].shards.shards != [] && states[i].shards.window > 0
    ensures states[j].shards.shards != [] && states[j].shards.window > 0
    ensures CompactEach(states[i], ids, step).error.Some? ==> CompactEach(states[j], later, step).error.Some?
  {
    hide CoreInvariant, Ready, Flows, IsEngineRun, CompactEach, Stuck, NoRepeats;
    CoreReady(states[0]);
    CoreFlows(states[0]);
    RunReady(settings, states, ops, i);
    RunReady(settings, states, ops, j);
    PassFailsIff(states[i], ids, step);
    PassFailsIff(states[j], later, step);
    if CompactEach(states[i], ids, step).error.Some? { RunStuck(settings, states, ops, i, j); }
  }
}
