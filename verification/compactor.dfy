/** `Compactor`: downsamples one block at a time. */
module Compaction {
  import opened Model
  import opened Seqs
  import opened Memtable
  import opened Sharding
  import opened Storage
  import opened EngineState
  import opened EngineSteps
  import opened TableBounds
  import opened Downsample

  /** Compaction does not look at the memtable. */
  lemma CompactIgnoresMem(c: Core<real>, mem: Mem<real>, id: nat, step: int)
    requires c.shards.shards != [] && c.shards.window > 0 && step > 0
    ensures CompactCore(c.(mem := mem), id, step)
         == (CompactCore(c, id, step).0.(mem := mem), CompactCore(c, id, step).1)
  {
    hide CompactTable, HeldForCompaction, ReleasedAfterCompaction, CreateIn, Times, RouteShards;
  }

  /** Part of a table compacted: the series in `done`. */
  function CompactSome(t: Table<real>, step: int, done: set<nat>): Table<real>
    requires step > 0
  {
    map s | s in t && s in done && t[s] != [] :: CompactPoints(t[s], step)
  }

  lemma CompactSomeMore(t: Table<real>, step: int, done: set<nat>, s: nat)
    requires step > 0 && s in t && s !in done
    ensures CompactSome(t, step, done + {s})
         == if t[s] == [] then CompactSome(t, step, done)
            else CompactSome(t, step, done)[s := CompactPoints(t[s], step)]
  {
  }

  lemma CompactPointsNone(pts: seq<Point<real>>, step: int)
    requires step > 0
    ensures CompactPoints(pts, step) == [] <==> pts == []
  {
    if pts != [] { FoldSeries(pts, step); }
  }

  class Compactor {
    const store: Store<real>
    const shards: Manager
    const window: int

    constructor (store: Store<real>, shards: Manager, window: int)
      requires store.Valid() && shards.Valid() && store.Repr() !! shards.Repr()
      ensures Valid()
      ensures this.store == store && this.shards == shards && this.window == window
    {
      this.store, this.shards, this.window := store, shards, window;
    }

    ghost predicate Valid()
      reads store, shards
    {
      store.Valid() && shards.Valid() && store.Repr() !! shards.Repr()
    }

    ghost function View(): (c: Core<real>)
      reads store, store.Repr(), shards, shards.Repr()
      ensures shards.Valid() ==> c.shards.shards != [] && c.shards.window > 0
    {
      Core(EmptyMem(), shards.View(), store.View())
    }

    /** The two footprints gained fresh objects only. */
    twostate predicate Grown()
      reads store, shards
    {
      && (forall o :: o in store.Repr() ==> o in old(store.Repr()) || fresh(o))
      && (forall o :: o in shards.Repr() ==> o in old(shards.Repr()) || fresh(o))
    }

    /** The aggregation loop of `Compact` over every series, in any order. */
    method DownsampleTable(raw: Table<real>, step: int) returns (byID: Table<real>, outMin: int, outMax: int)
      requires step > 0
      ensures byID == CompactTable(raw, step)
      ensures outMin == Least(Times(byID)) && outMax == Greatest(Times(byID))
    {
      hide CompactPoints, Times, TimesOf, Bounds;
      byID, outMin, outMax := map[], 0, 0;
      var first := true;
      var rest := raw.Keys;
      ghost var done: set<nat> := {};
      StartBounds<real>();
      while rest != {}
        invariant rest <= raw.Keys && done == raw.Keys - rest
        invariant byID == CompactSome(raw, step, done)
        invariant Bounds(Times(byID), first, outMin, outMax)
        decreases |rest|
      {
        var s :| s in rest;
        rest := rest - {s};
        CompactSomeMore(raw, step, done, s);
        var agg := AggregateWindow(raw[s], step);
        CompactPointsNone(raw[s], step);
        if |agg| != 0 {
          TimesGrow(byID, s, agg);
          first, outMin, outMax := Widen(agg, first, outMin, outMax, Times(byID));
          byID := byID[s := agg];
        }
        done := done + {s};
      }
      assert done == raw.Keys;
      BoundsAre(Times(byID), first, outMin, outMax);
    }

    /** `Compact`, whatever the memtable holds meanwhile: it is neither read nor changed. */
    method Compact(id: nat) returns (r: Result<nat>)
      requires Valid()
      modifies store.Repr(), shards.Repr()
      ensures Valid() && Grown()
      ensures (View(), r) == CompactCore(old(View()), id, if window > 0 then window else 60_000_000_000)
      ensures forall mem: Mem<real> ::
                (View().(mem := mem), r) == CompactCore(old(View()).(mem := mem), id, EffectiveStep(window))
    {
      hide CompactTable, Times, CreateIn, RouteShards, AddBlockToNewest, OpenIn, CompactingIn,
        ReleasedAfterCompaction, Manager.Valid, Manager.View, Store.Valid, Store.View;
      r := Downsample(id);
      forall mem: Mem<real>
        ensures (View().(mem := mem), r) == CompactCore(old(View()).(mem := mem), id, EffectiveStep(window))
      {
        CompactIgnoresMem(old(View()), mem, id, EffectiveStep(window));
      }
    }

    method Downsample(id: nat) returns (r: Result<nat>)
      requires Valid()
      modifies store.Repr(), shards.Repr()
      ensures Valid() && Grown()
      ensures (View(), r) == CompactCore(old(View()), id, EffectiveStep(window))
    {
      hide CompactTable, Times, CreateIn, RouteShards, AddBlockToNewest, OpenIn, CompactingIn,
        ReleasedAfterCompaction, Manager.Valid, Manager.View, Store.Valid, Store.View;
      var src := Hold(id);
      if src.Err? {
        return Err(src.error);
      }
      if src.value.None? {
        return Ok(0);
      }
      var byID, outMin, outMax := DownsampleTable(src.value.value.byID, EffectiveStep(window));
      store.MarkCompacting(src.value.value);
      if byID == map[] {
        Retire(src.value.value);
        return Ok(0);
      }
      r := Replace(src.value.value, byID, outMin, outMax);
    }

    /** Publishes the replacement, and retires the source unless `Route` refused. */
    method Replace(src: Block<real>, byID: Table<real>, outMin: int, outMax: int) returns (r: Result<nat>)
      requires Valid() && store.Holds(src) && src.refs > 0
      modifies store.Repr(), shards.Repr()
      ensures Valid() && Grown()
      ensures r == if Routable(old(shards.View()),
                               src.minTS) then Ok(CreateIn(old(store.View()), byID, outMin, outMax).nextID)
                   else Err(BeforeActiveShard)
      ensures store.View() == (var made := CreateIn(old(store.View()), byID, outMin, outMax);
                               if r.Ok? then ReleasedAfterCompaction(made, src.id) else CloseIn(made, src.id))
      ensures shards.View() == if r.Ok? then AddBlockToNewest(RouteShards(old(shards.View()), src.minTS), r.value)
                               else old(shards.View())
    {
      hide RouteShards, AddBlockToNewest, ReleasedAfterCompaction, Manager.Valid, Manager.View, Store.Valid,
        Store.View;
      r := Publish(src, byID, outMin, outMax);
      if r.Ok? {
        Retire(src);
      } else {
        store.Close(src);
      }
    }

    /** Opens the source. */
    method Hold(id: nat) returns (r: Result<Option<Block<real>>>)
      requires Valid()
      modifies store.Repr()
      ensures Valid() && store.Repr() == old(store.Repr()) && shards.Repr() == old(shards.Repr())
      ensures shards.View() == old(shards.View())
      ensures r.Err? <==> id in old(store.View()).blocks && old(store.View()).blocks[id].archived
      ensures r.Err? ==> r.error == AlreadyArchived
      ensures r.Ok? && r.value.None? <==> id !in old(store.View()).blocks
      ensures store.View() == if r.Ok? && r.value.Some? then OpenIn(old(store.View()), id) else old(store.View())
      ensures r.Ok? && r.value.Some? ==>
                && store.Holds(r.value.value) && r.value.value.id == id && r.value.value.refs > 0
                && r.value.value.byID == old(store.View()).blocks[id].byID
                && r.value.value.minTS == old(store.View()).blocks[id].minTS
    {
      hide Manager.Valid, Manager.View, Store.Valid, Store.View;
      r := store.Open(id);
    }

    /** Creates the replacement and lists it in the shard `Route` finds for the source. */
    method Publish(src: Block<real>, byID: Table<real>, outMin: int, outMax: int) returns (r: Result<nat>)
      requires Valid() && store.Holds(src)
      modifies store, shards.Repr()
      ensures Valid() && Grown()
      ensures store.Holds(src) && src.refs == old(src.refs)
      ensures store.View() == CreateIn(old(store.View()), byID, outMin, outMax)
      ensures r.Ok? <==> Routable(old(shards.View()), src.minTS)
      ensures shards.View()
           == if r.Ok? then AddBlockToNewest(RouteShards(old(shards.View()), src.minTS), store.View().nextID)
              else old(shards.View())
      ensures r == if r.Ok? then Ok(store.View().nextID) else Err(BeforeActiveShard)
    {
      hide CreateIn, RouteShards, AddBlockToNewest, Manager.View, Manager.Valid, Store.Valid, Store.View;
      var block := store.CreateSealed(byID, outMin, outMax);
      ghost var mine := store.Repr();
      assert mine !! shards.Repr();
      var routed := shards.Route(src.minTS);
      assert store.Repr() == mine && mine !! shards.Repr();
      if routed.Err? {
        return Err(routed.error);
      }
      shards.AddToNewest(routed.value, block.id);
      r := Ok(block.id);
    }

    /** The source is archived, reclaim runs while the handle is open, and the handle closes. */
    method Retire(src: Block<real>)
      requires store.Valid() && store.Holds(src) && src.refs > 0
      modifies store.Repr()
      ensures store.Valid() && store.Repr() <= old(store.Repr())
      ensures store.View() == ReleasedAfterCompaction(old(store.View()), src.id)
    {
      hide CompactTable, Times;
      store.ArchiveHeld(src);
      assert store.Shown()[src.id] == src.View();
      ghost var archived := store.View();
      var count := store.Reclaim();
      assert src.id in ReclaimIn(archived).blocks;
      assert store.Shown().Keys == store.blocks.Keys;
      store.Close(src);
    }

    /** `CompactAll`: visits the listed blocks in the order `visited`, compacts each one that is
        immutable when its turn comes, and stops at the first error. */
    method CompactAll() returns (done: nat, error: Option<Error>, ghost visited: seq<nat>)
      requires Valid()
      modifies store.Repr(), shards.Repr()
      ensures Valid() && Grown()
      ensures NoRepeats(visited)
      ensures forall id :: id in visited ==> id in old(View()).store.blocks
      ensures error.None? ==> forall id: nat :: id in visited <==> id in old(View()).store.blocks
      ensures CompactPass(View(), done, error)
           == CompactEach(old(View()), visited, if window > 0 then window else 60_000_000_000)
    {
      hide CompactTurn, CompactEach, NoRepeats, Visit, Manager.Valid, Manager.Repr, Store.Valid, Store.Repr;
      var rest := store.List();
      ghost var all := rest;
      done, visited, error := 0, [], None;
      CompactNone(old(View()), EffectiveStep(window));
      while rest != {} && error.None?
        invariant Valid() && Grown()
        invariant rest <= all && NoRepeats(visited) && (forall i: nat :: i in visited <==> i in all && i !in rest)
        invariant CompactPass(View(), done, error) == CompactEach(old(View()), visited, EffectiveStep(window))
        decreases |rest|
      {
        var id :| id in rest;
        rest := rest - {id};
        CompactEachMore(old(View()), visited, id, EffectiveStep(window));
        visited := Visit(visited, id);
        var did;
        did, error := TakeTurn(id, done);
        if did { done := done + 1; }
      }
    }

    /** One turn of the `CompactAll` loop. */
    method TakeTurn(id: nat, ghost done: nat) returns (did: bool, error: Option<Error>)
      requires Valid()
      modifies store.Repr(), shards.Repr()
      ensures Valid() && Grown()
      ensures CompactPass(View(), if did then done + 1 else done, error)
           == CompactTurn(CompactPass(old(View()), done, None), id, EffectiveStep(window))
    {
      hide CompactCore, Manager.Valid, Manager.Repr, Store.Valid, Store.Repr;
      did, error := false, None;
      var state := StateOf(id);
      if state == Some(BlockImmutable) {
        var r := Compact(id);
        if r.Err? {
          error := Some(r.error);
        } else {
          did := true;
        }
      }
    }

    /** Opens a block to look at its state, and closes it again. */
    method StateOf(id: nat) returns (state: Option<BlockState>)
      requires Valid()
      modifies store.Repr()
      ensures Valid() && View() == old(View()) && store.Repr() == old(store.Repr())
              && shards.Repr() == old(shards.Repr())
      ensures state == if Openable(View().store, id) then Some(View().store.blocks[id].state) else None
    {
      hide Manager.Valid, Manager.View, Store.Valid, Store.View;
      var got := store.Open(id);
      if got.Err? || got.value.None? {
        return None;
      }
      var b := got.value.value;
      state := Some(b.state);
      store.Close(b);
      OpenThenClose(old(store.View()), id);
    }
  }

  /** How far a pass over the blocks has come. */
  datatype CompactPass = CompactPass(core: Core<real>, done: nat, error: Option<Error>)

  /** One block's turn: skipped unless it is open to readers and immutable. */
  ghost function CompactTurn(p: CompactPass, id: nat, step: int): (q: CompactPass)
    requires p.core.shards.shards != [] && p.core.shards.window > 0 && step > 0
    ensures q.core.shards.shards != [] && q.core.shards.window > 0
  {
    if p.error.Some? || !Openable(p.core.store, id) || p.core.store.blocks[id].state != BlockImmutable then p
    else
      match CompactCore(p.core, id, step) {
        case (core, Ok(_)) => CompactPass(core, p.done + 1, None)
        case (core, Err(e)) => CompactPass(core, p.done, Some(e))
      }
  }

  ghost function CompactEach(c: Core<real>, ids: seq<nat>, step: int): (p: CompactPass)
    requires c.shards.shards != [] && c.shards.window > 0 && step > 0
    ensures p.core.shards.shards != [] && p.core.shards.window > 0
    decreases |ids|
  {
    if ids == [] then CompactPass(c, 0, None)
    else CompactTurn(CompactEach(c, ids[..|ids| - 1], step), ids[|ids| - 1], step)
  }

  lemma CompactNone(c: Core<real>, step: int)
    requires c.shards.shards != [] && c.shards.window > 0 && step > 0
    ensures NoRepeats<nat>([]) && CompactEach(c, [], step) == CompactPass(c, 0, None)
  {
  }

  lemma CompactEachMore(c: Core<real>, ids: seq<nat>, id: nat, step: int)
    requires c.shards.shards != [] && c.shards.window > 0 && step > 0
    ensures CompactEach(c, ids + [id], step) == CompactTurn(CompactEach(c, ids, step), id, step)
  {
    hide CompactTurn;
    assert (ids + [id])[..|ids|] == ids;
  }
}
