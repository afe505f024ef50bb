/** When queries find everything: the exact condition on the settings, over every run. */
module Completeness {
  import opened Model
  import opened Seqs
  import opened Memtable
  import opened Sharding
  import opened Storage
  import opened EngineState
  import opened EngineSteps
  import opened EngineQueries
  import opened EngineRuns
  import opened UnitStep
  import Aggregation
  import opened Downsample

  /** In every run of a new engine, every query finds what looking into every listed block finds. */
  ghost predicate AnswersCompletely(settings: Settings, window: int, now: int)
    requires window > 0
  {
    forall states, ops, i: nat, series, rng ::
      IsEngineRun(settings, states, ops) && states[0] == NewCore(window, now) && i < |states| ==>
        CollectBag(states[i], series, rng) == FullBag(states[i], series, rng)
  }

  // ----- one sample through append, flush and compaction -----

  lemma WriteOne<V>(p: Point<V>)
    ensures MemWrite(EmptyMem(), p) == Mem(map[p.series := [p]], p.ts, p.ts, 1)
  {
    assert Upsert([], p) == [p];
  }

  lemma OneTime<V>(p: Point<V>)
    ensures Times(map[p.series := [p]]) == {p.ts}
    ensures Least(Times(map[p.series := [p]])) == p.ts && Greatest(Times(map[p.series := [p]])) == p.ts
  {
    hide Least, Greatest;
    var t: Table<V> := map[p.series := [p]];
    assert t[p.series][0].ts in Times(t);
    assert Times(t) == {p.ts};
    BoundsUnique(Times(t), p.ts, p.ts);
  }

  lemma FlattenOne<V>(p: Point<V>)
    ensures Flatten(map[p.series := [p]], [p.series]) == [p]
  {
    assert [p.series][..0] == [];
  }

  lemma GroupOne<V>(m: Shards, p: Point<V>)
    requires m.shards != [] && m.window > 0 && m.Newest().start <= p.ts < m.Newest().end
    ensures GroupPoints(Grouping(m, []), [p])
         == Grouping(m, [Group(m.Newest().start, m.Newest().end, map[p.series := [p]])])
  {
    hide GroupPoints, GroupPoint;
    var none: Grouping<V> := Grouping(m, []);
    GroupNoPoints(none);
    GroupPointsSnoc(none, [], p);
    GroupPlainly(m, [], p);
    assert [] + [p] == [p];
  }

  /** A flush of a single point of the newest window stores it there. */
  lemma FlushOne<V>(c: Core<V>, p: Point<V>)
    requires c.shards.shards != [] && c.shards.window > 0
    requires c.mem == Mem(map[p.series := [p]], p.ts, p.ts, 1)
    requires c.shards.Newest().start <= p.ts < c.shards.Newest().end
    ensures FlushCore(c, [p.series])
         == (Core(EmptyMem(), AddBlockToNewest(c.shards, c.store.nextID + 1),
             CreateIn(c.store, map[p.series := [p]], p.ts, p.ts)), true)
  {
    hide Times, Least, Greatest, AddBlockToNewest, CreateIn, GroupPoints, StoreGroups, Flatten;
    OneTime(p);
    FlattenOne(p);
    GroupOne(c.shards, p);
    CreatedId(c.store, map[p.series := [p]], p.ts, p.ts);
    var m := c.shards.Newest();
    StoreOne(Flushed(c.shards, c.store, true), Group(m.start, m.end, map[p.series := [p]]));
  }

  lemma CompactOne(p: Point<real>, step: int)
    requires step > 0
    ensures CompactTable(map[p.series := [p]], step) == map[p.series := [p.(ts := Align(p.ts, step))]]
  {
    hide Align;
    assert [p][..0] == [];
    assert Aggregation.FoldWindows([p], step) == [Aggregation.Acc(Align(p.ts, step), p.value, p.value, p.value, 1)];
    assert CompactPoints([p], step) == [p.(ts := Align(p.ts, step))];
  }

  // ----- a run whose last query misses a point -----

  /** After the compaction of the only block: the block, archived, and its replacement. */
  ghost predicate Compacted(c: Core<real>, p: Point<real>, w: int, d: Core<real>)
    requires c.shards.shards != []
  {
    && d.mem == EmptyMem()
    && d.shards == AddBlockToNewest(AddBlockToNewest(c.shards, 1), 2)
    && Openable(d.store, 2) && d.store.blocks[2].byID == map[p.series := [p.(ts := w)]]
    && !Openable(d.store, 1)
  }

  lemma AddedShape(m: Shards, id: nat)
    requires m.shards != []
    ensures (var r := AddBlockToNewest(m, id);
             && r.window == m.window && r.Newest().start == m.Newest().start && r.Newest().end == m.Newest().end)
  {
  }

  lemma CompactStored(c: Core<real>, p: Point<real>, step: int)
    requires c.shards.shards != [] && c.shards.window > 0 && step > 0
    requires c.shards.Newest().start <= p.ts < c.shards.Newest().end
    requires c.store == StoreV(map[], 0, 0)
    ensures (var b := Core(EmptyMem(), AddBlockToNewest(c.shards, 1),
                           CreateIn(c.store, map[p.series := [p]], p.ts, p.ts));
             Compacted(c, p, Align(p.ts, step), CompactCore(b, 1, step).0))
  {
    hide Align, Times, Least, Greatest, CompactTable, ReleasedAfterCompaction, HeldForCompaction, AddBlockToNewest;
    CompactOne(p, step);
    OneTime(p.(ts := Align(p.ts, step)));
    var t: Table<real>, u: Table<real> := map[p.series := [p]], map[p.series := [p.(ts := Align(p.ts, step))]];
    var b := CreateIn(c.store, t, p.ts, p.ts);
    CreateKeepsStore(c.store, t, p.ts, p.ts);
    HeldShrinks(b, 1);
    var made := CreateIn(HeldForCompaction(b, 1), u, Align(p.ts, step), Align(p.ts, step));
    CreateKeepsStore(HeldForCompaction(b, 1), u, Align(p.ts, step), Align(p.ts, step));
    ReleasedOpenable(made, 1, 2);
    AddedShape(c.shards, 1);
  }

  lemma {:induction false} EmptyShards<V>(s: StoreV<V>, shards: seq<ShardV>, series: nat, rng: QueryRange)
    requires forall sh :: sh in shards ==> sh.blocks == []
    ensures ShardsBag(s, shards, series, rng) == multiset{}
    decreases |shards|
  {
    if shards != [] {
      var n := |shards| - 1;
      assert shards[n] in shards;
      EmptyShards(s, shards[..n], series, rng);
      NoIds(s, series, rng);
    }
  }

  /** Where the replacement's only point lies outside the window of the shard that lists it, a query
      for it prunes that shard. */
  lemma EscapedMissed(c: Core<real>, p: Point<real>, w: int, d: Core<real>)
    requires c.shards.shards != [] && Compacted(c, p, w, d)
    requires forall sh :: sh in c.shards.shards ==> sh.blocks == []
    requires !(c.shards.Newest().start <= w < c.shards.Newest().end)
    ensures CollectBag(d, p.series, QueryRange(w, w + 1)) != FullBag(d, p.series, QueryRange(w, w + 1))
  {
    hide ShardsBag, Filter, IdsBag;
    var rng, q, n := QueryRange(w, w + 1), p.(ts := w), |c.shards.shards| - 1;
    var before, all := c.shards.shards[..n], d.shards.shards;
    assert all[..n] == before && all == before + [all[n]];
    assert all[n].blocks == [1] + [2];
    var seen := Filter(CoveringFilter(rng), all);
    FilterSnoc(CoveringFilter(rng), before, all[n]);
    forall sh | sh in seen ensures sh.blocks == [] { FilterMember(CoveringFilter(rng), before, sh); }
    EmptyShards(d.store, seen, p.series, rng);
    ShardsBagSnoc(d.store, before, all[n], p.series, rng);
    IdsBagSnoc(d.store, [1], 2, p.series, rng);
    FilterAll(InsideOf(rng), [q]);
    assert BlockBag(d.store, 2, p.series, rng) == multiset{q};
    assert FullBag(d, p.series, rng)[q] > 0;
    FilterNothing(InsideOf<real>(rng));
  }

  lemma AppendOne(window: int, now: int, p: Point<real>)
    requires window > 0 && Routable(NewShards(window, now).value, p.ts)
    ensures AppendCore(NewCore(window, now), p)
         == Core(Mem(map[p.series := [p]], p.ts, p.ts, 1), RouteShards(NewShards(window, now).value, p.ts),
                 StoreV(map[], 0, 0))
    ensures forall sh :: sh in RouteShards(NewShards(window, now).value, p.ts).shards ==> sh.blocks == []
  {
    hide Align, MemWrite, RouteShards;
    WriteOne(p);
    RouteEmpty(NewShards(window, now).value, p.ts);
  }

  lemma RouteEmpty(m: Shards, ts: int)
    requires m.shards != [] && m.window > 0 && forall sh :: sh in m.shards ==> sh.blocks == []
    ensures forall sh :: sh in RouteShards(m, ts).shards ==> sh.blocks == []
  {
    hide Align;
  }

  lemma FlushCompactMisses(c1: Core<real>, p: Point<real>, step: int) returns (c2: Core<real>, c3: Core<real>)
    requires c1.shards.shards != [] && c1.shards.window > 0 && step > 0
    requires c1.mem == Mem(map[p.series := [p]], p.ts, p.ts, 1) && c1.store == StoreV(map[], 0, 0)
    requires forall sh :: sh in c1.shards.shards ==> sh.blocks == []
    requires c1.shards.Newest().start <= p.ts < c1.shards.Newest().end
    requires !(c1.shards.Newest().start <= Align(p.ts, step) < c1.shards.Newest().end)
    ensures c2 == FlushCore(c1, [p.series]).0 && c2.shards.shards != [] && c2.shards.window > 0
    ensures c3 == CompactCore(c2, 1, step).0 && c3.shards.shards != [] && c3.shards.window > 0
    ensures (var w := Align(p.ts, step);
             CollectBag(c3, p.series, QueryRange(w, w + 1)) != FullBag(c3, p.series, QueryRange(w, w + 1)))
  {
    hide Align, FlushCore, CompactCore, Compacted, CollectBag, FullBag, CreateIn, AddBlockToNewest;
    FlushOne(c1, p);
    AddedShape(c1.shards, 1);
    CompactStored(c1, p, step);
    c2 := FlushCore(c1, [p.series]).0;
    c3 := CompactCore(c2, 1, step).0;
    EscapedMissed(c1, p, Align(p.ts, step), c3);
  }

  lemma RunOfTwo(settings: Settings, a: Core<real>, b: Core<real>, c: Core<real>, x: EngineOp, y: EngineOp)
    requires a.shards.shards != [] && a.shards.window > 0 && Next(settings, a, x, b)
    requires b.shards.shards != [] && b.shards.window > 0 && Next(settings, b, y, c)
    ensures IsEngineRun(settings, [a, b, c], [x, y])
  {
    hide Next;
  }

  lemma RunOfThree(settings: Settings, a: Core<real>, b: Core<real>, c: Core<real>, d: Core<real>,
                   x: EngineOp, y: EngineOp, z: EngineOp)
    requires a.shards.shards != [] && a.shards.window > 0 && Next(settings, a, x, b)
    requires b.shards.shards != [] && b.shards.window > 0 && Next(settings, b, y, c)
    requires c.shards.shards != [] && c.shards.window > 0 && Next(settings, c, z, d)
    ensures IsEngineRun(settings, [a, b, c, d], [x, y, z])
  {
    hide Next;
  }

  /** A sample routed to a window that its own downsampled timestamp lies outside of: appended,
      flushed and compacted, it is missing from a later answer. */
  lemma MissingRun(settings: Settings, window: int, now: int, t: int)
    requires window > 0
    requires (var m := NewShards(window, now).value;
              && Routable(m, t)
              && var s, w := RouteShards(m, t).Newest(), Align(t, EffectiveStep(settings.step));
              s.start <= t < s.end && !(s.start <= w < s.end))
    ensures !AnswersCompletely(settings, window, now)
  {
    hide Align, AppendCore, FlushCore, CompactCore, CollectBag, FullBag, RouteShards, IsEngineRun;
    var step, p, c0 := EffectiveStep(settings.step), Point(t, 0.0, 0), NewCore<real>(window, now);
    AppendOne(window, now, p);
    var c1 := AppendCore(c0, p);
    var c2, c3 := FlushCompactMisses(c1, p, step);
    var rng := QueryRange(Align(t, step), Align(t, step) + 1);
    assert IsOrder([0], c1.mem.byID);
    if settings.threshold <= 1 {
      RunOfTwo(settings, c0, c2, c3, OpAppend(p, [0]), OpCompact(1));
      assert CollectBag([c0, c2, c3][2], 0, rng) != FullBag([c0, c2, c3][2], 0, rng);
    } else {
      RunOfThree(settings, c0, c1, c2, c3, OpAppend(p, []), OpFlush([0]), OpCompact(1));
      assert CollectBag([c0, c1, c2, c3][3], 0, rng) != FullBag([c0, c1, c2, c3][3], 0, rng);
    }
  }

  // ----- which settings have such a sample -----

  lemma ModMore(a: int, k: int, n: int)
    requires n > 0
    ensures (a + k * n) % n == a % n
  {
    DivideBounds(a, n);
    var q := a / n + k;
    assert a / n * n + k * n == q * n;
    DivideUnique(a + k * n, q, n);
    DivideBounds(a + k * n, n);
  }

  lemma Multiply(a: int, n: int)
    requires a >= 0 && n > 0
    ensures a <= a * n
  {
  }

  lemma AlignDown(t: int, n: int)
    requires n > 0 && t >= 0
    ensures t % n == 0 ==> Align(t, n) == t
    ensures t % n != 0 ==> Align(t, n) < t
  {
  }

  lemma AlignAtMost(now: int, n: int)
    requires n > 0
    ensures Align(now, n) <= if now < 0 then -now else now
  {
    if now < 0 {
      AlignNonNegative(-now, n);
      AlignNegated(-now, n);
    } else {
      AlignNonNegative(now, n);
    }
  }

  /** A multiple of `window` at least `bound` later than the first, which `step` does not divide. */
  lemma OffGrid(window: int, step: int, bound: int) returns (t: int)
    requires window > 0 && step > 0 && window % step != 0 && bound >= 0
    ensures t >= window + bound && t % window == 0 && t % step != 0
  {
    var k := bound * step;
    t := (1 + k) * window;
    Multiply(bound, step);
    Multiply(k, window);
    assert t == window + k * window;
    MultipleOf(1 + k, window);
    assert k * window == (bound * window) * step;
    ModMore(window, bound * window, step);
  }

  /** A far enough shard start that the step does not divide. */
  lemma OffGridStart(window: int, step: int, now: int) returns (t: int)
    requires window > 0 && step > 0 && window % step != 0
    ensures (var m := NewShards(window, now).value;
             && m.Newest().end <= t && RouteShards(m, t).Newest().start == t && Align(t, step) < t)
  {
    hide SealEnded, Align;
    t := OffGrid(window, step, if now < 0 then -now else now);
    AlignAtMost(now, window);
    AlignDown(t, window);
    AlignDown(t, step);
  }

  lemma AfterMultiple(e: int, n: int)
    requires n > 1 && e >= 0 && e % n == 0
    ensures Align(-e - 1, n) == -e
  {
    DivideBounds(e, n);
    ModMore(1, e / n, n);
    assert e == e / n * n;
    assert 1 % n == 1;
  }

  lemma DifferenceDivides(a: int, b: int, n: int)
    requires n > 0 && a % n == 0 && b % n == 0
    ensures (a - b) % n == 0
  {
    DivideBounds(a, n);
    DivideBounds(b, n);
    var x, y := a / n, b / n;
    assert a - b == (x - y) * n;
    MultipleOf(x - y, n);
  }

  /** The last timestamp of a window that ends at or before time zero rounds up, out of it. */
  lemma LastRoundsUp(window: int, step: int, now: int)
    requires window > 0 && step > 1 && window % step == 0 && now <= -window
    ensures (var s := NewShards(window, now).value.Newest(); Align(s.end - 1, step) == s.end)
  {
    hide Align;
    var a := Align(-now, window);
    AlignNonNegative(-now, window);
    AlignNegated(-now, window);
    AlignAtLeast(-now, window, window);
    DividesStart(a, window, step);
    DifferenceDivides(a, window, step);
    AfterMultiple(a - window, step);
  }

  lemma DividingComplete(settings: Settings, window: int, now: int)
    requires window > 0 && window % EffectiveStep(settings.step) == 0 && now > -window
    ensures AnswersCompletely(settings, window, now)
  {
    hide Align, Next, CollectBag, FullBag, CoreInvariant;
    NewCoreInvariant<real>(window, now);
    forall states, ops, i: nat, series, rng |
      IsEngineRun(settings, states, ops) && states[0] == NewCore(window, now) && i < |states|
      ensures CollectBag(states[i], series, rng) == FullBag(states[i], series, rng)
    {
      RunsAnswerCompletely(settings, states, ops, i, series, rng);
      PruningIsComplete(states[i], series, rng);
    }
  }

  lemma UnitComplete(settings: Settings, window: int, now: int)
    requires window > 0 && EffectiveStep(settings.step) == 1
    ensures AnswersCompletely(settings, window, now)
  {
    hide Align, Next, CollectBag, FullBag, Contained;
    NewContained<real>(window, now);
    forall states, ops, i: nat, series, rng |
      IsEngineRun(settings, states, ops) && states[0] == NewCore(window, now) && i < |states|
      ensures CollectBag(states[i], series, rng) == FullBag(states[i], series, rng)
    {
      RunContained(settings, states, ops, i);
      ContainedComplete(states[i], series, rng);
    }
  }

  /** Pruning by shard window loses no point in any run, exactly when downsampling moves no point, or
      its step divides the shard width and the first window does not lie before time zero. */
  lemma CompleteIff(settings: Settings, window: int, now: int)
    requires window > 0
    ensures (var step := if settings.step > 0 then settings.step else 60_000_000_000;
             AnswersCompletely(settings, window, now) <==> step == 1 || (window % step == 0 && now > -window))
  {
    hide Align, AnswersCompletely, SealEnded;
    var step, m := EffectiveStep(settings.step), NewShards(window, now).value;
    if step == 1 {
      UnitComplete(settings, window, now);
    } else if window % step != 0 {
      var t := OffGridStart(window, step, now);
      MissingRun(settings, window, now, t);
    } else if now <= -window {
      LastRoundsUp(window, step, now);
      MissingRun(settings, window, now, m.Newest().end - 1);
    } else {
      DividingComplete(settings, window, now);
    }
  }
}
