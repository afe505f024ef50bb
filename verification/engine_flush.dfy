/** Flushing any memtable, wherever its points lie: what `Recover` can meet, which writes without
    routing. */
module EngineFlush {
  import opened Model
  import opened Seqs
  import opened Memtable
  import opened Sharding
  import opened Storage
  import opened EngineState
  import opened EngineSteps
  import opened EngineQueries
  import opened EngineAnswers
  import opened TableBounds

  /** The buffered points that the newest shard does not refuse lie in one window. */
  ghost predicate OneWindow<V>(c: Core<V>)
    requires c.shards.shards != [] && c.shards.window > 0
  {
    forall a, b ::
      a in Times(c.mem.byID) && b in Times(c.mem.byID) && a >= c.shards.Newest().start && b >= c.shards.Newest().start
      ==> Align(a, c.shards.window) == Align(b, c.shards.window)
  }

  /** What such a flush leaves: the kept points in one block of the shard covering them, which is
      opened for them if need be. */
  ghost function FlushInto<V>(c: Core<V>): Core<V>
    requires c.shards.shards != [] && c.shards.window > 0
  {
    var kept := KeptFrom(c.mem.byID, c.shards.Newest().start);
    if c.mem.points == 0 then c
    else if kept == map[] then c.(mem := EmptyMem())
    else
      Core(EmptyMem(),
           AddBlockToNewest(RouteShards(c.shards, Least(Times(kept))), c.store.nextID + 1),
           CreateIn(c.store, kept, Least(Times(kept)), Greatest(Times(kept))))
  }

  // ----- windows -----

  lemma NewestWindow(m: Shards, ts: int)
    requires ShardInvariant(m) && m.Newest().start <= ts < m.Newest().end
    ensures Align(ts, m.window) == m.Newest().start
  {
    DivideBounds(m.Newest().start, m.window);
    WindowOf(ts, m.window, m.Newest().start / m.window);
  }

  lemma RoutedWindow(m: Shards, ts: int)
    requires ShardInvariant(m) && Routable(m, ts)
    ensures ShardInvariant(RouteShards(m, ts)) && RouteShards(m, ts).window == m.window
    ensures (var s := RouteShards(m, ts).Newest();
             s.start == Align(ts, m.window) && s.start <= ts < s.end && m.Newest().start <= s.start)
  {
    RouteContains(m, ts);
    NewestWindow(RouteShards(m, ts), ts);
    RouteMovesOn(m, ts);
  }

  lemma SameRoute(m: Shards, a: int, b: int)
    requires ShardInvariant(m) && Routable(m, a) && Routable(m, b) && Align(a, m.window) == Align(b, m.window)
    ensures RouteShards(m, a) == RouteShards(m, b)
  {
    hide Align, SealEnded;
    if a < m.Newest().end {
      NewestWindow(m, a);
      AlignNonNegative(b, m.window);
    } else if b < m.Newest().end {
      NewestWindow(m, b);
      AlignNonNegative(a, m.window);
    }
  }

  /** A point of the newest window routes nowhere else. */
  lemma StaysPut(m: Shards, ts: int)
    requires ShardInvariant(m) && ts >= 0 && Align(ts, m.window) == m.Newest().start
    ensures m.Newest().start <= ts < m.Newest().end && RouteShards(m, ts) == m
  {
    AlignNonNegative(ts, m.window);
  }

  // ----- one window -----

  ghost predicate SameWindow<V>(m: Shards, ps: seq<Point<V>>, w: int)
    requires m.shards != [] && m.window > 0
  {
    forall p :: p in ps && p.ts >= m.Newest().start ==> Align(p.ts, m.window) == w
  }

  /** Points of one window, and refused ones, end up in at most one group. */
  lemma {:induction false} GroupsOneWindow<V>(m: Shards, ps: seq<Point<V>>, w: int)
    requires ShardInvariant(m) && m.shards != [] && m.window > 0 && SameWindow(m, ps, w)
    ensures (var kept := Filter(AtOrAfter(m.Newest().start), ps);
             GroupPoints(Grouping(m, []), ps)
             == if kept == [] then Grouping(m, [])
             else
               var r := RouteShards(m, kept[0].ts);
               Grouping(r, [Group(r.Newest().start, r.Newest().end, AppendPoints(map[], kept))]))
    decreases |ps|
  {
    hide ShardInvariant, GroupPoint, Filter, Align, RouteShards;
    var keep := AtOrAfter<V>(m.Newest().start);
    if ps == [] {
      FilterNothing(keep);
    } else {
      var before, p := ps[..|ps| - 1], ps[|ps| - 1];
      assert ps == before + [p];
      assert p in ps;
      assert SameWindow(m, before, w);
      GroupsOneWindow(m, before, w);
      FilterSnoc(keep, before, p);
      var kept := Filter(keep, before);
      assert (kept + [p])[..|kept|] == kept;
      if kept != [] { FilterMember(keep, before, kept[0]); }
      GroupMore(m, kept, p, w);
    }
  }

  lemma {:induction false} GroupMore<V>(m: Shards, kept: seq<Point<V>>, p: Point<V>, w: int)
    requires ShardInvariant(m) && m.shards != [] && m.window > 0
    requires kept != [] ==> kept[0].ts >= m.Newest().start && Align(kept[0].ts, m.window) == w
    requires p.ts >= m.Newest().start ==> Align(p.ts, m.window) == w
    ensures (var g := if kept == [] then Grouping(m, [])
                      else
                        var r := RouteShards(m, kept[0].ts);
                        Grouping(r, [Group(r.Newest().start, r.Newest().end, AppendPoints(map[], kept))]);
             var r := RouteShards(m, if kept == [] then p.ts else kept[0].ts);
             GroupPoint(g, p)
             == if p.ts < m.Newest().start then g
             else Grouping(r, [Group(r.Newest().start, r.Newest().end,
                                     AppendPoint(if kept == [] then map[] else AppendPoints(map[], kept), p))]))
  {
    hide ShardInvariant, Align, RouteShards, AppendPoints, AppendPoint;
    if kept == [] {
      assert AddToGroup([], RouteShards(m, p.ts).Newest().start, RouteShards(m, p.ts).Newest().end, p)
          == [Group(RouteShards(m, p.ts).Newest().start, RouteShards(m, p.ts).Newest().end, AppendPoint(map[], p))];
    } else {
      RoutedWindow(m, kept[0].ts);
      var r := RouteShards(m, kept[0].ts);
      if p.ts >= m.Newest().start {
        InvariantShape(m);
        StaysPut(r, p.ts);
      }
      var g: Group<V> := Group(r.Newest().start, r.Newest().end, AppendPoints(map[], kept));
      assert [g][1..] == [];
      assert AddToGroup([g], g.start, g.end, p) == [g.(table := AppendPoint(g.table, p))];
    }
  }

  lemma KeptWindow<V>(c: Core<V>, order: seq<nat>, w: int)
    requires c.shards.shards != [] && c.shards.window > 0
    requires forall ts :: ts in Times(c.mem.byID) && ts >= c.shards.Newest().start ==> Align(ts, c.shards.window) == w
    ensures SameWindow(c.shards, Flatten(c.mem.byID, order), w)
  {
    hide Align, Times;
    forall p | p in Flatten(c.mem.byID, order) && p.ts >= c.shards.Newest().start
      ensures Align(p.ts, c.shards.window) == w {
      FlattenTimes(c.mem.byID, order, p);
    }
  }

  /** Points of one window are flushed into one block whatever order the maps are walked in. */
  lemma FlushOneWindow<V>(c: Core<V>, order: seq<nat>)
    requires ShardInvariant(c.shards) && MemInvariant(c.mem) && IsOrder(order, c.mem.byID)
    requires c.shards.shards != [] && c.shards.window > 0 && OneWindow(c)
    ensures FlushCore(c, order) == (FlushInto(c), true)
  {
    hide Filter, Flatten, GroupPoints, AppendPoints, KeptFrom, Times, ShardInvariant, Align, RouteShards, ExactBounds,
      WellFormedTable;
    if c.mem.points > 0 {
      var start, ps := c.shards.Newest().start, Flatten(c.mem.byID, order);
      var table, kept := KeptFrom(c.mem.byID, start), Filter(AtOrAfter<V>(start), ps);
      FlattenedIsKept(c.mem.byID, order, start);
      KeptNonEmpty(c.mem.byID, start);
      AppendNonEmpty(kept);
      if kept == [] {
        KeptWindow(c, order, 0) by { NothingKept(c); }
        GroupsOneWindow(c.shards, ps, 0);
        StoreNone(Flushed(c.shards, c.store, true));
      } else {
        FilterMember(AtOrAfter<V>(start), ps, kept[0]);
        FlattenTimes(c.mem.byID, order, kept[0]);
        var w := Align(kept[0].ts, c.shards.window);
        KeptWindow(c, order, w);
        GroupsOneWindow(c.shards, ps, w);
        var lo := Least(Times(table));
        KeptTimes(c.mem.byID, start, lo);
        SameRoute(c.shards, kept[0].ts, lo);
        RoutedWindow(c.shards, lo);
        var r := RouteShards(c.shards, lo);
        InvariantShape(c.shards);
        StaysPut(r, lo);
        StoreOne(Flushed(r, c.store, true), Group(r.Newest().start, r.Newest().end, table));
      }
    }
  }

  lemma NothingKept<V>(c: Core<V>)
    requires c.shards.shards != [] && KeptFrom(c.mem.byID, c.shards.Newest().start) == map[]
    ensures forall ts :: ts in Times(c.mem.byID) ==> ts < c.shards.Newest().start
  {
    hide KeptFrom, Times;
    KeptNonEmpty(c.mem.byID, c.shards.Newest().start);
    forall ts | ts in Times(c.mem.byID) ensures ts < c.shards.Newest().start {
      KeptTimes(c.mem.byID, c.shards.Newest().start, ts);
    }
  }

  // ----- more than one window -----

  /** The groups of one flush: ascending windows from `low` on, each holding points of its own
      window, the last one the newest shard's. */
  ghost predicate GroupsInOrder<V>(m: Shards, groups: seq<Group<V>>, low: int) {
    && m.shards != [] && m.window > 0
    && (forall i, j :: 0 <= i < j < |groups| ==> groups[i].start < groups[j].start)
    && (forall i :: 0 <= i < |groups| ==>
                      groups[i].start >= low && Times(groups[i].table) != {}
                      && forall ts :: ts in Times(groups[i].table) ==>
                                        groups[i].start <= ts && Align(ts, m.window) == groups[i].start)
    && (groups != [] ==> groups[|groups| - 1].start == m.Newest().start && groups[|groups| - 1].end == m.Newest().end)
  }

  lemma AddToLast<V>(groups: seq<Group<V>>, start: int, end: int, p: Point<V>)
    requires groups != [] && groups[|groups| - 1].start == start && groups[|groups| - 1].end == end
    requires forall i :: 0 <= i < |groups| - 1 ==> groups[i].start != start
    ensures (var n := |groups| - 1;
             AddToGroup(groups, start, end, p) == groups[n := groups[n].(table := AppendPoint(groups[n].table, p))])
    decreases |groups|
  {
    hide AppendPoint;
    if |groups| > 1 {
      AddToLast(groups[1..], start, end, p);
    }
  }

  lemma {:induction false} AddToNew<V>(groups: seq<Group<V>>, start: int, end: int, p: Point<V>)
    requires forall i :: 0 <= i < |groups| ==> groups[i].start != start
    ensures AddToGroup(groups, start, end, p) == groups + [Group(start, end, AppendPoint(map[], p))]
    decreases |groups|
  {
    hide AppendPoint;
    if groups != [] {
      AddToNew(groups[1..], start, end, p);
    }
  }

  lemma AppendTimes<V>(t: Table<V>, p: Point<V>)
    ensures Times(AppendPoint(t, p)) == Times(t) + {p.ts}
  {
    hide Times;
    var pts := PointsOf(t, p.series);
    assert (pts + [p])[..|pts|] == pts && (pts + [p])[..|pts| + 1] == pts + [p];
    TimesSnoc(pts + [p], |pts|);
    TimesPointwise(t, AppendPoint(t, p), p);
  }

  /** One more point keeps the order, and moves neither the first group nor the newest shard back. */
  lemma GroupStep<V>(g: Grouping<V>, p: Point<V>, low: int)
    requires ShardInvariant(g.shards) && g.shards.shards != [] && g.shards.window > 0
    requires GroupsInOrder(g.shards, g.groups, low) && low <= g.shards.Newest().start
    ensures (var r := GroupPoint(g, p);
             && ShardInvariant(r.shards) && r.shards.window == g.shards.window && GroupsInOrder(r.shards, r.groups, low)
             && g.shards.Newest().start <= r.shards.Newest().start
             && AllListed(r.shards.shards) == AllListed(g.shards.shards)
             && (g.groups != [] ==> r.groups != [] && r.groups[0].start == g.groups[0].start)
             && (p.ts < r.shards.Newest().start || (r.groups != []
                                                    && r.shards.Newest().start == Align(p.ts, g.shards.window))))
  {
    hide ShardInvariant, Align, RouteShards, Times, AppendPoint, AllListed, AddToGroup, MovesOn;
    if Routable(g.shards, p.ts) {
      RoutedWindow(g.shards, p.ts);
      RouteMoves(g.shards, p.ts);
      MovedShards(g.shards, RouteShards(g.shards, p.ts));
      var s := RouteShards(g.shards, p.ts).Newest();
      var n := |g.groups| - 1;
      if g.groups != [] && g.groups[n].start == s.start {
        SameNewest(g.shards, p.ts);
        AddToLast(g.groups, s.start, s.end, p);
        AppendTimes(g.groups[n].table, p);
      } else {
        AddToNew(g.groups, s.start, s.end, p);
        AppendTimes(map[], p);
        NoTimes<V>();
      }
    }
  }

  lemma MovedShards(a: Shards, b: Shards)
    requires MovesOn(a, b)
    ensures AllListed(b.shards) == AllListed(a.shards)
  {
    hide ShardInvariant, AllListed;
    MovedListing(a.shards, b.shards);
  }

  /** A route that ends in the window it began in found the newest shard. */
  lemma SameNewest(m: Shards, ts: int)
    requires ShardInvariant(m) && Routable(m, ts) && RouteShards(m, ts).Newest().start == m.Newest().start
    ensures RouteShards(m, ts) == m
  {
    if ts >= m.Newest().end { RouteShape(m, ts); }
  }

  lemma {:induction false} GroupAll<V>(g: Grouping<V>, ps: seq<Point<V>>, low: int)
    requires ShardInvariant(g.shards) && g.shards.shards != [] && g.shards.window > 0
    requires GroupsInOrder(g.shards, g.groups, low) && low <= g.shards.Newest().start
    ensures (var r := GroupPoints(g, ps);
             && ShardInvariant(r.shards) && r.shards.window == g.shards.window && GroupsInOrder(r.shards, r.groups, low)
             && g.shards.Newest().start <= r.shards.Newest().start
             && AllListed(r.shards.shards) == AllListed(g.shards.shards)
             && (g.groups != [] ==> r.groups != [] && r.groups[0].start == g.groups[0].start)
             && (forall p :: p in ps ==>
                               p.ts < r.shards.Newest().start
                               || (r.groups != [] && Align(p.ts, g.shards.window) <= r.shards.Newest().start)))
    decreases |ps|
  {
    hide ShardInvariant, Align, GroupPoint, GroupsInOrder, AllListed;
    if ps == [] {
      GroupNoPoints(g);
    } else {
      var before, p := ps[..|ps| - 1], ps[|ps| - 1];
      assert ps == before + [p];
      GroupAll(g, before, low);
      GroupStep(GroupPoints(g, before), p, low);
    }
  }

  lemma MultiplesApart(a: int, b: int, n: int)
    requires n > 0 && a % n == 0 && b % n == 0 && a < b
    ensures a + n <= b
  {
    DivideBounds(a, n);
    DivideBounds(b, n);
    if b / n <= a / n {
      if b / n < a / n { MulStep(b / n, a / n, n); }
    } else {
      MulStep(a / n, b / n, n);
    }
  }

  /** Storing succeeds exactly when there is at most one group: the newest shard's window is the
      last group's, so the first of several is refused, with its block created and not listed. */
  lemma StoreOkIff<V>(m: Shards, store: StoreV<V>, groups: seq<Group<V>>, low: int)
    requires ShardInvariant(m) && m.shards != [] && m.window > 0 && GroupsInOrder(m, groups, low) && low >= 0
    ensures (var f := StoreGroups(Flushed(m, store, true), groups);
             && (f.ok <==> |groups| <= 1)
             && (!f.ok ==> f.shards == m && f.store.nextID == store.nextID + 1))
  {
    hide ShardInvariant, Align, Times, RouteShards, AddBlockToNewest, CreateIn;
    var f := Flushed(m, store, true);
    StoreNone(f);
    if groups != [] {
      StoreOne(f, groups[0]);
      var lo := Least(Times(groups[0].table));
      CreatedId(store, groups[0].table, lo, Greatest(Times(groups[0].table)));
      if |groups| == 1 {
        assert groups == [groups[0]];
      } else {
        assert groups[..1] == [groups[0]];
        StartBehind(m, lo);
        StoreStops(f, groups, 1);
      }
    }
  }

  /** A timestamp of an earlier window lies before the newest one. */
  lemma StartBehind(m: Shards, ts: int)
    requires ShardInvariant(m) && ts >= 0
    ensures Align(ts, m.window) < m.Newest().start ==> ts < m.Newest().start
  {
    AlignNonNegative(ts, m.window);
    if Align(ts, m.window) < m.Newest().start { MultiplesApart(Align(ts, m.window), m.Newest().start, m.window); }
  }

  /** The failing order: the series with the earliest kept point first. */
  lemma FailingOrder<V>(c: Core<V>) returns (order: seq<nat>)
    requires ShardInvariant(c.shards) && MemInvariant(c.mem)
    requires c.shards.shards != [] && c.shards.window > 0 && !OneWindow(c)
    ensures IsOrder(order, c.mem.byID) && !FlushCore(c, order).1
  {
    hide ShardInvariant, Align, Times, GroupPoints, GroupsInOrder, StoreGroups, WellFormedTable, ExactBounds,
      KeptFrom, Filter;
    var start := c.shards.Newest().start;
    var t, kept: Table<V> := c.mem.byID, KeptFrom(c.mem.byID, start);
    KeptNonEmpty(t, start);
    var x, y :| x in Times(t) && y in Times(t) && x >= start && y >= start
                && Align(x, c.shards.window) != Align(y, c.shards.window);
    KeptTimes(t, start, x);
    KeptTimes(t, start, y);
    var first := Least(Times(kept));
    KeptTimes(t, start, first);
    var series, p := TimeHasPoint(t, first);
    order := SeriesFirst(t, series);
    var late := if Align(x, c.shards.window) != Align(first, c.shards.window) then x else y;
    forall ts | ts in Times(t) && ts >= start ensures first <= ts { KeptTimes(t, start, ts); }
    AlignMonotone(first, late, c.shards.window);
    FirstGroup(c, series, p, order);
    InvariantShape(c.shards);
    var g := GroupPoints(Grouping(c.shards, []), Flatten(t, order));
    EverythingFlattened(t, order, late);
    var q :| q in Flatten(t, order) && q.ts == late;
    NothingGrouped<V>(c.shards);
    GroupAll(Grouping(c.shards, []), Flatten(t, order), start);
    StoreOkIff(g.shards, c.store, g.groups, start);
    TwoGroups(g, start, Align(late, c.shards.window), late);
    if c.mem.points == 0 { NoTimes<V>(); }
  }

  lemma NothingGrouped<V>(m: Shards)
    requires m.shards != [] && m.window > 0
    ensures GroupsInOrder<V>(m, [], m.Newest().start)
  {
  }

  lemma TwoGroups<V>(g: Grouping<V>, low: int, w: int, late: int)
    requires ShardInvariant(g.shards) && g.shards.shards != [] && g.shards.window > 0
             && GroupsInOrder(g.shards, g.groups, low)
    requires g.groups != [] && g.groups[0].start < w && w == Align(late, g.shards.window) && late >= 0
    requires late < g.shards.Newest().start || w <= g.shards.Newest().start
    ensures |g.groups| >= 2
  {
    hide ShardInvariant, Times;
    AlignNonNegative(late, g.shards.window);
  }

  lemma SeriesFirst<V>(t: Table<V>, series: nat) returns (order: seq<nat>)
    requires series in t
    ensures IsOrder(order, t) && order != [] && order[0] == series
  {
    var rest := AnOrder(t.Keys - {series});
    order := [series] + rest;
  }

  lemma {:induction false} FlattenConcat<V>(t: Table<V>, a: seq<nat>, b: seq<nat>)
    ensures Flatten(t, a + b) == Flatten(t, a) + Flatten(t, b)
    decreases |b|
  {
    if b == [] {
      assert a + b == a;
    } else {
      var n := |b| - 1;
      assert (a + b)[..|a + b| - 1] == a + b[..n];
      FlattenConcat(t, a, b[..n]);
      Associate(Flatten(t, a), Flatten(t, b[..n]), PointsOf(t, b[n]));
    }
  }

  lemma {:induction false} FlattenHolds<V>(t: Table<V>, order: seq<nat>, series: nat, p: Point<V>)
    requires series in order && p in PointsOf(t, series)
    ensures p in Flatten(t, order)
    decreases |order|
  {
    var n := |order| - 1;
    if order[n] != series {
      assert order == order[..n] + [order[n]];
      FlattenHolds(t, order[..n], series, p);
    }
  }

  lemma EverythingFlattened<V>(t: Table<V>, order: seq<nat>, ts: int)
    requires IsOrder(order, t) && ts in Times(t)
    ensures exists p :: p in Flatten(t, order) && p.ts == ts
  {
    hide Times;
    var series, p := TimeHasPoint(t, ts);
    FlattenHolds(t, order, series, p);
  }

  /** With its series walked first, the earliest kept point opens the first group. */
  lemma FirstGroup<V>(c: Core<V>, series: nat, p: Point<V>, order: seq<nat>)
    requires ShardInvariant(c.shards) && c.shards.shards != [] && c.shards.window > 0 && WellFormedTable(c.mem.byID)
    requires series in c.mem.byID && p in c.mem.byID[series] && order != [] && order[0] == series
    requires p.ts >= c.shards.Newest().start
    requires forall ts :: ts in Times(c.mem.byID) && ts >= c.shards.Newest().start ==> p.ts <= ts
    ensures (var g := GroupPoints(Grouping(c.shards, []), Flatten(c.mem.byID, order));
             g.groups != [] && g.groups[0].start == Align(p.ts, c.shards.window))
  {
    hide ShardInvariant, Align, GroupPoints, GroupPoint, GroupsInOrder, Times, AllListed, WellFormedTable, Flatten;
    var pts := c.mem.byID[series];
    var k :| 0 <= k < |pts| && pts[k] == p;
    var none := Grouping<V>.Grouping(c.shards, []);
    var late := SplitAt(c.mem.byID, order, series, k);
    EarlyRefused(c, series, k);
    GroupPointsConcat(none, pts[..k] + [p], late);
    GroupPointsSnoc(none, pts[..k], p);
    NothingGrouped<V>(c.shards);
    GroupStep(none, p, c.shards.Newest().start);
    PointGrouped(c.shards, p);
    GroupAll(GroupPoint(none, p), late, c.shards.Newest().start);
  }

  lemma SplitAt<V>(t: Table<V>, order: seq<nat>, series: nat, k: nat) returns (late: seq<Point<V>>)
    requires series in t && k < |t[series]| && order != [] && order[0] == series
    ensures Flatten(t, order) == (t[series][..k] + [t[series][k]]) + late
  {
    hide Flatten;
    var pts, rest := t[series], Flatten(t, order[1..]);
    late := pts[k + 1..] + rest;
    assert order == [series] + order[1..];
    FlattenConcat(t, [series], order[1..]);
    FlattenSnoc(t, [], series);
    assert [] + [series] == [series];
    assert pts == (pts[..k] + [pts[k]]) + pts[k + 1..];
    Associate(pts[..k] + [pts[k]], pts[k + 1..], rest);
  }

  lemma PointGrouped<V>(m: Shards, p: Point<V>)
    requires ShardInvariant(m) && m.shards != [] && m.window > 0 && Routable(m, p.ts)
    ensures (var g := GroupPoint(Grouping(m, []), p); g.groups != [] && g.groups[0].start == Align(p.ts, m.window))
  {
    hide ShardInvariant, Align, RouteShards, AppendPoint;
    RoutedWindow(m, p.ts);
  }

  /** Points of the series before the earliest kept one are refused, and change nothing. */
  lemma EarlyRefused<V>(c: Core<V>, series: nat, k: nat)
    requires c.shards.shards != [] && c.shards.window > 0 && WellFormedTable(c.mem.byID)
    requires series in c.mem.byID && k < |c.mem.byID[series]|
    requires forall ts :: ts in Times(c.mem.byID) && ts >= c.shards.Newest().start ==> c.mem.byID[series][k].ts <= ts
    ensures GroupPoints(Grouping(c.shards, []), c.mem.byID[series][..k]) == Grouping(c.shards, [])
  {
    var pts := c.mem.byID[series];
    forall i | 0 <= i < k ensures pts[i].ts < c.shards.Newest().start {
      assert pts[i].ts < pts[k].ts;
      assert pts[i].ts in Times(c.mem.byID);
    }
    AllRefused(Grouping(c.shards, []), pts[..k]);
  }

  lemma {:induction false} AllRefused<V>(g: Grouping<V>, ps: seq<Point<V>>)
    requires g.shards.shards != [] && g.shards.window > 0
    requires forall i :: 0 <= i < |ps| ==> ps[i].ts < g.shards.Newest().start
    ensures GroupPoints(g, ps) == g
    decreases |ps|
  {
    if ps != [] { AllRefused(g, ps[..|ps| - 1]); }
  }

  /** A flush of any memtable succeeds in every order the maps may be walked in if and only if the
      points the newest shard does not refuse lie in one window. */
  lemma FlushSucceedsIff<V>(c: Core<V>)
    requires ShardInvariant(c.shards) && MemInvariant(c.mem) && c.shards.shards != [] && c.shards.window > 0
    ensures (forall order :: IsOrder(order, c.mem.byID) ==> FlushCore(c, order).1) <==> OneWindow(c)
  {
    hide ShardInvariant, FlushCore, OneWindow, MemInvariant, FlushInto;
    if OneWindow(c) {
      forall order | IsOrder(order, c.mem.byID) ensures FlushCore(c, order).1 {
        FlushOneWindow(c, order);
      }
    } else {
      var order := FailingOrder(c);
    }
  }

  // ----- one given order -----

  /** The points the newest shard does not refuse, in the order the maps are walked in. */
  function Walked<V>(c: Core<V>, order: seq<nat>): seq<Point<V>>
    requires c.shards.shards != []
  {
    Filter(AtOrAfter(c.shards.Newest().start), Flatten(c.mem.byID, order))
  }

  /** The first of them lies in the latest window of them all. */
  ghost predicate LatestFirst<V>(c: Core<V>, order: seq<nat>)
    requires c.shards.shards != [] && c.shards.window > 0
  {
    var ps := Walked(c, order);
    forall p :: p in ps ==> Align(p.ts, c.shards.window) <= Align(ps[0].ts, c.shards.window)
  }

  lemma {:induction false} FirstSplit<V>(ps: seq<Point<V>>, start: int)
    returns (early: seq<Point<V>>, late: seq<Point<V>>)
    requires Filter(AtOrAfter(start), ps) != []
    ensures ps == early + [Filter(AtOrAfter(start), ps)[0]] + late && Filter(AtOrAfter(start), ps)[0].ts >= start
    ensures forall i :: 0 <= i < |early| ==> early[i].ts < start
  {
    if ps[0].ts >= start {
      early, late := [], ps[1..];
    } else {
      early, late := FirstSplit(ps[1..], start);
      early := [ps[0]] + early;
    }
  }

  /** Grouping from the window of the first point kept comes out the same. */
  lemma GroupFromFirst<V>(m: Shards, early: seq<Point<V>>, p: Point<V>, late: seq<Point<V>>)
    requires ShardInvariant(m) && m.shards != [] && m.window > 0 && Routable(m, p.ts)
    requires forall i :: 0 <= i < |early| ==> early[i].ts < m.Newest().start
    ensures (var r := RouteShards(m, p.ts);
             && ShardInvariant(r) && r.shards != [] && r.window == m.window
             && GroupPoints(Grouping(m, []), early + [p] + late) == GroupPoints(Grouping(r, []), early + [p] + late)
             && GroupPoints(Grouping(m, []), early + [p] + late) == GroupPoints(GroupPoint(Grouping(m, []), p), late))
  {
    hide ShardInvariant, Align, GroupPoints, RouteShards, AddToGroup;
    var r, none: Grouping<V> := RouteShards(m, p.ts), Grouping(m, []);
    var again: Grouping<V> := Grouping(r, []);
    RoutedWindow(m, p.ts);
    InvariantShape(m);
    StaysPut(r, p.ts);
    AllRefused(none, early);
    AllRefused(again, early);
    GroupPointsSnoc(none, early, p);
    GroupPointsSnoc(again, early, p);
    GroupPointsConcat(none, early + [p], late);
    GroupPointsConcat(again, early + [p], late);
  }

  lemma RoutedBelow<V>(c: Core<V>, order: seq<nat>)
    requires ShardInvariant(c.shards) && c.shards.shards != [] && c.shards.window > 0 && IsOrder(order, c.mem.byID)
    requires Walked(c, order) != [] && LatestFirst(c, order)
    requires Walked(c, order)[0].ts >= c.shards.Newest().start
    ensures BelowNewestEnd(c.(shards := RouteShards(c.shards, Walked(c, order)[0].ts)))
  {
    hide ShardInvariant, Align, RouteShards, Times, Flatten, Filter;
    var first := Walked(c, order)[0].ts;
    RoutedWindow(c.shards, first);
    var r := RouteShards(c.shards, first);
    InvariantShape(c.shards);
    forall ts | ts in Times(c.mem.byID) ensures ts < r.Newest().end {
      if ts >= c.shards.Newest().start {
        EverythingFlattened(c.mem.byID, order, ts);
        var p :| p in Flatten(c.mem.byID, order) && p.ts == ts;
        FilterMember(AtOrAfter(c.shards.Newest().start), Flatten(c.mem.byID, order), p);
        WindowEnds(r, ts);
      } else {
        InvariantShape(r);
      }
    }
  }

  lemma WindowEnds(m: Shards, ts: int)
    requires ShardInvariant(m) && ts >= 0 && Align(ts, m.window) <= m.Newest().start
    ensures ts < m.Newest().end
  {
    AlignNonNegative(ts, m.window);
  }

  /** With the maps walked in this order a flush succeeds if and only if the first point not refused
      lies in the latest window of all those. It then stores exactly that window's points: those of
      earlier windows are gone without an error. */
  lemma FlushOrderIff<V>(c: Core<V>, order: seq<nat>)
    requires ShardInvariant(c.shards) && MemInvariant(c.mem) && IsOrder(order, c.mem.byID)
    requires c.shards.shards != [] && c.shards.window > 0
    ensures FlushCore(c, order).1 <==> LatestFirst(c, order)
    ensures LatestFirst(c, order) ==>
              FlushCore(c, order).0
              == FlushPlain(if Walked(c, order) == [] then c
                            else c.(shards := RouteShards(c.shards, Walked(c, order)[0].ts)))
  {
    hide ShardInvariant, FlushCore, FlushPlain, RouteShards, Times, WellFormedTable, ExactBounds, Flatten, LatestFirst;
    TableOf(c.mem);
    if Walked(c, order) == [] {
      NoneWalked(c, order);
      FlushIsPlain(c, order);
    } else {
      var early, late := FirstSplit(Flatten(c.mem.byID, order), c.shards.Newest().start);
      var first := Walked(c, order)[0];
      GroupFromFirst(c.shards, early, first, late);
      var routed := c.(shards := RouteShards(c.shards, first.ts));
      SameGrouping(c, routed, order);
      SomethingBuffered(c, order);
      if LatestFirst(c, order) {
        RoutedBelow(c, order);
        FlushIsPlain(routed, order);
      } else {
        LaterFails(c, order, early, late);
      }
    }
  }

  lemma NoneWalked<V>(c: Core<V>, order: seq<nat>)
    requires ShardInvariant(c.shards) && c.shards.shards != [] && c.shards.window > 0 && IsOrder(order, c.mem.byID)
    requires Walked(c, order) == []
    ensures BelowNewestEnd(c) && LatestFirst(c, order)
  {
    hide ShardInvariant, Align, Times, Flatten, Filter;
    InvariantShape(c.shards);
    forall ts | ts in Times(c.mem.byID) ensures ts < c.shards.Newest().end {
      EverythingFlattened(c.mem.byID, order, ts);
      var p :| p in Flatten(c.mem.byID, order) && p.ts == ts;
      FilterMember(AtOrAfter(c.shards.Newest().start), Flatten(c.mem.byID, order), p);
    }
  }

  lemma SameGrouping<V>(a: Core<V>, b: Core<V>, order: seq<nat>)
    requires a.shards.shards != [] && a.shards.window > 0 && b == a.(shards := b.shards)
    requires b.shards.shards != [] && b.shards.window > 0
    requires GroupPoints(Grouping(a.shards, []), Flatten(a.mem.byID, order))
          == GroupPoints(Grouping(b.shards, []), Flatten(a.mem.byID, order))
    ensures a.mem.points > 0 ==> FlushCore(a, order) == FlushCore(b, order)
  {
    hide GroupPoints, Flatten, StoreGroups;
  }

  lemma LaterFails<V>(c: Core<V>, order: seq<nat>, early: seq<Point<V>>, late: seq<Point<V>>)
    requires ShardInvariant(c.shards) && MemInvariant(c.mem) && c.shards.shards != [] && c.shards.window > 0
    requires Walked(c, order) != [] && !LatestFirst(c, order)
    requires Flatten(c.mem.byID, order) == early + [Walked(c, order)[0]] + late
    requires Walked(c, order)[0].ts >= c.shards.Newest().start
    requires forall i :: 0 <= i < |early| ==> early[i].ts < c.shards.Newest().start
    ensures !FlushCore(c, order).1 && c.mem.points > 0
  {
    hide ShardInvariant, Align, GroupPoints, GroupPoint, GroupsInOrder, Flatten, StoreGroups, MemInvariant, Filter,
      AllListed, Times;
    var start, ps, first := c.shards.Newest().start, Walked(c, order), Walked(c, order)[0];
    var q :| q in ps && Align(q.ts, c.shards.window) > Align(first.ts, c.shards.window);
    FilterMember(AtOrAfter(start), Flatten(c.mem.byID, order), q);
    forall x | x in early ensures x.ts < start { var i :| 0 <= i < |early| && early[i] == x; }
    assert q in late;
    InvariantShape(c.shards);
    GroupFromFirst(c.shards, early, first, late);
    NothingGrouped<V>(c.shards);
    GroupStep(Grouping(c.shards, []), first, start);
    PointGrouped(c.shards, first);
    var one := GroupPoint(Grouping(c.shards, []), first);
    GroupAll(one, late, start);
    var g := GroupPoints(one, late);
    TwoGroups(g, start, Align(q.ts, c.shards.window), q.ts);
    StoreOkIff(g.shards, c.store, g.groups, start);
    SomethingBuffered(c, order);
  }

  lemma SomethingBuffered<V>(c: Core<V>, order: seq<nat>)
    requires MemInvariant(c.mem) && c.shards.shards != [] && Walked(c, order) != []
    ensures c.mem.points > 0
  {
    hide Times;
    var p := Walked(c, order)[0];
    FilterMember(AtOrAfter(c.shards.Newest().start), Flatten(c.mem.byID, order), p);
    FlattenTimes(c.mem.byID, order, p);
    if c.mem.points == 0 { NoTimes<V>(); }
  }

  /** A flush that fails has emptied the memtable all the same; one block was created, and no shard
      lists it. */
  lemma FailedFlush<V>(c: Core<V>, order: seq<nat>)
    requires ShardInvariant(c.shards) && MemInvariant(c.mem) && c.shards.shards != [] && c.shards.window > 0
    requires !FlushCore(c, order).1
    ensures (var f := FlushCore(c, order).0;
             && f.mem == EmptyMem() && f.store.nextID == c.store.nextID + 1
             && AllListed(f.shards.shards) == AllListed(c.shards.shards))
  {
    hide ShardInvariant, GroupPoints, GroupsInOrder, StoreGroups, Flatten, AllListed, MemInvariant;
    InvariantShape(c.shards);
    NothingGrouped<V>(c.shards);
    var start := c.shards.Newest().start;
    var g := GroupPoints(Grouping(c.shards, []), Flatten(c.mem.byID, order));
    GroupAll(Grouping(c.shards, []), Flatten(c.mem.byID, order), start);
    StoreOkIff(g.shards, c.store, g.groups, start);
  }

  /** Flushing points of one window into an engine that satisfied the invariant before they came
      leaves one that does. */
  lemma FlushIntoKeeps<V>(c: Core<V>)
    requires CoreInvariant(c.(mem := EmptyMem())) && MemInvariant(c.mem) && c.mem.points > 0
    requires c.shards.shards != [] && c.shards.window > 0 && OneWindow(c)
    ensures CoreInvariant(FlushInto(c)) && FlushInto(c).mem == EmptyMem()
  {
    hide ShardInvariant, Times, ListingGood, GoodBlock, StoreInvariant, KeptFrom, RouteShards, Align, MovesOn,
      MemInvariant, BelowNewestEnd;
    var empty, start := c.(mem := EmptyMem()), c.shards.Newest().start;
    var kept: Table<V> := KeptFrom(c.mem.byID, start);
    KeptNonEmpty(c.mem.byID, start);
    if kept != map[] {
      var lo, hi := Least(Times(kept)), Greatest(Times(kept));
      TableOf(c.mem);
      KeptTable(c.mem.byID, start);
      KeptTimes(c.mem.byID, start, lo);
      KeptTimes(c.mem.byID, start, hi);
      InvariantShape(c.shards);
      RoutedWindow(c.shards, lo);
      RouteMoves(c.shards, lo);
      MovedInvariant(empty, RouteShards(c.shards, lo));
      StaysPut(RouteShards(c.shards, lo), hi);
      ListNewBlock(empty.(shards := RouteShards(c.shards, lo)), kept, lo, hi);
    }
  }

  lemma TableOf<V>(m: Mem<V>)
    requires MemInvariant(m)
    ensures WellFormedTable(m.byID)
  {
  }
}
