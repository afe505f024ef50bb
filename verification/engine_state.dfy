/** The memtable, the shards and the block store as one value, and what a flush does to it. */
module EngineState {
  import opened Model
  import opened Seqs
  import opened Memtable
  import opened Sharding
  import opened Storage

  datatype Core<V> = Core(mem: Mem<V>, shards: Shards, store: StoreV<V>)

  // ----- flushing, as the source does it -----

  /** One group of `groupByShard`: a shard window and the points routed to it. */
  datatype Group<V> = Group(start: int, end: int, table: Table<V>)

  function AppendPoint<V>(t: Table<V>, p: Point<V>): Table<V> {
    t[p.series := PointsOf(t, p.series) + [p]]
  }

  function AddToGroup<V>(groups: seq<Group<V>>, start: int, end: int, p: Point<V>): seq<Group<V>> {
    if groups == [] then [Group(start, end, AppendPoint(map[], p))]
    else if groups[0].start == start && groups[0].end == end then
      [groups[0].(table := AppendPoint(groups[0].table, p))] + groups[1..]
    else [groups[0]] + AddToGroup(groups[1..], start, end, p)
  }

  datatype Grouping<V> = Grouping(shards: Shards, groups: seq<Group<V>>)

  /** `groupByShard` on the points in iteration order: each is routed, which may rotate, and
      dropped when routing fails. */
  function GroupPoints<V>(g: Grouping<V>, ps: seq<Point<V>>): (r: Grouping<V>)
    requires g.shards.shards != [] && g.shards.window > 0
    ensures r.shards.shards != [] && r.shards.window > 0
    decreases |ps|
  {
    if ps == [] then g
    else
      var before := GroupPoints(g, ps[..|ps| - 1]);
      GroupPoint(before, ps[|ps| - 1])
  }

  function GroupPoint<V>(g: Grouping<V>, p: Point<V>): (r: Grouping<V>)
    requires g.shards.shards != [] && g.shards.window > 0
    ensures r.shards.shards != [] && r.shards.window > 0
  {
    if !Routable(g.shards, p.ts) then g
    else
      var m := RouteShards(g.shards, p.ts);
      Grouping(m, AddToGroup(g.groups, m.Newest().start, m.Newest().end, p))
  }

  /** A map's point lists, one after the other, in some order of its keys. */
  function Flatten<V>(t: Table<V>, order: seq<nat>): seq<Point<V>> {
    if order == [] then [] else Flatten(t, order[..|order| - 1]) + PointsOf(t, order[|order| - 1])
  }

  /** An iteration order of a map's keys. */
  ghost predicate IsOrder<V>(order: seq<nat>, t: Table<V>) {
    && (forall i, j :: 0 <= i < j < |order| ==> order[i] != order[j])
    && forall k :: k in order <==> k in t
  }

  /** A map can be walked in some order. */
  lemma {:induction false} AnOrder(keys: set<nat>) returns (order: seq<nat>)
    ensures NoRepeats(order) && forall k: nat :: k in order <==> k in keys
  {
    order := [];
    if keys != {} {
      var k :| k in keys;
      var rest := AnOrder(keys - {k});
      order := Visit(rest, k);
    }
  }

  lemma OrderOf<V>(order: seq<nat>, t: Table<V>)
    requires NoRepeats(order) && forall k: nat :: k in order <==> k in t
    ensures IsOrder(order, t)
  {
  }

  lemma SomeTime(times: set<int>)
    ensures times == {} || exists t: int :: t in times
  {
    if forall t: int :: t !in times {
      assert times == {};
    }
  }

  ghost function Least(times: set<int>): (m: int)
    ensures times != {} ==> m in times && forall t :: t in times ==> m <= t
    ensures times == {} ==> m == 0
  {
    if times == {} then 0
    else
      assert exists t: int :: t in times by { SomeTime(times); }
      var t: int :| t in times;
      var rest := times - {t};
      assert forall x :: x in times ==> x == t || x in rest;
      if rest == {} then t else if t < Least(rest) then t else Least(rest)
  }

  ghost function Greatest(times: set<int>): (m: int)
    ensures times != {} ==> m in times && forall t :: t in times ==> t <= m
    ensures times == {} ==> m == 0
  {
    if times == {} then 0
    else
      assert exists t: int :: t in times by { SomeTime(times); }
      var t: int :| t in times;
      var rest := times - {t};
      assert forall x :: x in times ==> x == t || x in rest;
      if rest == {} then t else if t > Greatest(rest) then t else Greatest(rest)
  }

  lemma BoundsUnique(times: set<int>, lo: int, hi: int)
    requires ExactBounds(times, lo, hi)
    ensures Least(times) == lo && Greatest(times) == hi
  {
  }

  /** What the block-creating loop leaves; `ok` is false when routing a group failed. */
  datatype Flushed<V> = Flushed(shards: Shards, store: StoreV<V>, ok: bool)

  /** One group stored: a block is created, then routed by its smallest timestamp and listed. */
  ghost function StoreGroup<V>(f: Flushed<V>, g: Group<V>): (r: Flushed<V>)
    requires f.shards.shards != [] && f.shards.window > 0
    ensures r.shards.shards != [] && r.shards.window > 0
  {
    var minTS := Least(Times(g.table));
    var store := CreateIn(f.store, g.table, minTS, Greatest(Times(g.table)));
    if Routable(f.shards, minTS) then
      Flushed(AddBlockToNewest(RouteShards(f.shards, minTS), store.nextID), store, true)
    else Flushed(f.shards, store, false)
  }

  /** The loop over groups stops at the first failure. */
  ghost function StoreGroups<V>(f: Flushed<V>, groups: seq<Group<V>>): (r: Flushed<V>)
    requires f.shards.shards != [] && f.shards.window > 0
    ensures r.shards.shards != [] && r.shards.window > 0
    decreases |groups|
  {
    if groups == [] then f
    else
      var before := StoreGroups(f, groups[..|groups| - 1]);
      if before.ok then StoreGroup(before, groups[|groups| - 1]) else before
  }

  /** `flushLocked` up to the log: what is left, and whether the watermark may advance. */
  ghost function FlushCore<V>(c: Core<V>, order: seq<nat>): (Core<V>, bool)
    requires c.shards.shards != [] && c.shards.window > 0
  {
    if c.mem.points == 0 then (c, true)
    else
      var g := GroupPoints(Grouping(c.shards, []), Flatten(c.mem.byID, order));
      var f := StoreGroups(Flushed(g.shards, c.store, true), g.groups);
      (Core(EmptyMem(), f.shards, f.store), f.ok)
  }

  // ----- the loops, one more turn at a time -----

  lemma StoreGroupsMore<V>(f: Flushed<V>, groups: seq<Group<V>>, i: nat)
    requires f.shards.shards != [] && f.shards.window > 0 && i < |groups|
    ensures StoreGroups(f, groups[..i + 1])
         == if StoreGroups(f, groups[..i]).ok then StoreGroup(StoreGroups(f, groups[..i]), groups[i])
            else StoreGroups(f, groups[..i])
    ensures StoreGroups(f, []) == f
  {
    hide StoreGroup;
    assert groups[..i + 1][..i] == groups[..i];
  }

  lemma {:induction false} StoreStops<V>(f: Flushed<V>, groups: seq<Group<V>>, i: nat)
    requires f.shards.shards != [] && f.shards.window > 0 && i <= |groups|
    requires !StoreGroups(f, groups[..i]).ok
    ensures StoreGroups(f, groups) == StoreGroups(f, groups[..i])
    decreases |groups| - i
  {
    hide StoreGroup, StoreGroups;
    if i < |groups| {
      StoreGroupsMore(f, groups, i);
      StoreStops(f, groups, i + 1);
    } else {
      assert groups[..i] == groups;
    }
  }

  lemma StoreNone<V>(f: Flushed<V>)
    requires f.shards.shards != [] && f.shards.window > 0
    ensures StoreGroups(f, []) == f
  {
  }

  lemma {:induction false} GroupPointsConcat<V>(g: Grouping<V>, a: seq<Point<V>>, b: seq<Point<V>>)
    requires g.shards.shards != [] && g.shards.window > 0
    ensures GroupPoints(g, a + b) == GroupPoints(GroupPoints(g, a), b)
    decreases |b|
  {
    hide GroupPoint;
    if b == [] {
      assert a + b == a;
    } else {
      var n := |b| - 1;
      assert (a + b)[..|a + b| - 1] == a + b[..n];
      GroupPointsConcat(g, a, b[..n]);
    }
  }

  lemma GroupPointsSnoc<V>(g: Grouping<V>, ps: seq<Point<V>>, p: Point<V>)
    requires g.shards.shards != [] && g.shards.window > 0
    ensures GroupPoints(g, ps + [p]) == GroupPoint(GroupPoints(g, ps), p)
  {
    hide GroupPoint;
    assert (ps + [p])[..|ps|] == ps;
  }

  lemma GroupNoPoints<V>(g: Grouping<V>)
    requires g.shards.shards != [] && g.shards.window > 0
    ensures GroupPoints(g, []) == g
  {
  }

  lemma FlattenSnoc<V>(t: Table<V>, order: seq<nat>, s: nat)
    requires s in t
    ensures Flatten(t, order + [s]) == Flatten(t, order) + t[s]
    ensures Flatten(t, []) == []
  {
    assert (order + [s])[..|order|] == order;
  }

  // ----- flushing, when every buffered point lies below the newest shard's end -----

  function AtOrAfter<V>(start: int): Point<V> -> bool {
    (p: Point<V>) => p.ts >= start
  }

  /** The buffered points at or after `start`, series by series. */
  function KeptFrom<V>(t: Table<V>, start: int): Table<V> {
    map s | s in t && Filter(AtOrAfter(start), t[s]) != [] :: Filter(AtOrAfter(start), t[s])
  }

  ghost predicate BelowNewestEnd<V>(c: Core<V>) {
    c.shards.shards != [] && forall ts :: ts in Times(c.mem.byID) ==> ts < c.shards.Newest().end
  }

  /** A flush that never rotates: at most one block, holding the points at or after the newest
      shard's start, listed in the newest shard. */
  ghost function FlushPlain<V>(c: Core<V>): Core<V>
    requires c.shards.shards != []
  {
    if c.mem.points == 0 then c
    else
      var kept := KeptFrom(c.mem.byID, c.shards.Newest().start);
      if kept == map[] then c.(mem := EmptyMem())
      else
        Core(EmptyMem(),
             AddBlockToNewest(c.shards, c.store.nextID + 1),
             CreateIn(c.store, kept, Least(Times(kept)), Greatest(Times(kept))))
  }

  function AppendPoints<V>(t: Table<V>, ps: seq<Point<V>>): Table<V> {
    if ps == [] then t else AppendPoint(AppendPoints(t, ps[..|ps| - 1]), ps[|ps| - 1])
  }

  function OfSeries<V>(s: nat): Point<V> -> bool {
    (p: Point<V>) => p.series == s
  }

  lemma {:induction false} AppendPointsOf<V>(ps: seq<Point<V>>, s: nat)
    ensures PointsOf(AppendPoints(map[], ps), s) == Filter(OfSeries(s), ps)
    ensures s in AppendPoints(map[], ps) <==> Filter(OfSeries(s), ps) != []
    decreases |ps|
  {
    if ps != [] {
      var n := |ps| - 1;
      AppendPointsOf(ps[..n], s);
      assert ps == ps[..n] + [ps[n]];
      FilterSnoc(OfSeries(s), ps[..n], ps[n]);
    }
  }

  /** Without a rotation the loop only collects, into the newest window, what routes there. */
  lemma {:induction false} GroupsIntoOne<V>(m: Shards, ps: seq<Point<V>>)
    requires m.shards != [] && m.window > 0 && forall p :: p in ps ==> p.ts < m.Newest().end
    ensures (var kept := Filter(AtOrAfter(m.Newest().start), ps);
             GroupPoints(Grouping(m, []), ps)
             == Grouping(m, if kept == [] then []
                         else [Group(m.Newest().start, m.Newest().end, AppendPoints(map[], kept))]))
    decreases |ps|
  {
    hide GroupPoint, Filter;
    var start, end := m.Newest().start, m.Newest().end;
    if ps == [] {
      FilterNothing(AtOrAfter<V>(start));
    } else {
      var before, p := ps[..|ps| - 1], ps[|ps| - 1];
      assert ps == before + [p];
      assert p in ps;
      GroupsIntoOne(m, before);
      FilterSnoc(AtOrAfter(start), before, p);
      var kept := Filter(AtOrAfter<V>(start), before);
      assert (kept + [p])[..|kept|] == kept;
      GroupPlainly(m, if kept == [] then [] else [Group(start, end, AppendPoints(map[], kept))], p);
    }
  }

  lemma GroupPlainly<V>(m: Shards, groups: seq<Group<V>>, p: Point<V>)
    requires m.shards != [] && m.window > 0 && p.ts < m.Newest().end
    requires |groups| <= 1 && (groups != [] ==> groups[0].start == m.Newest().start && groups[0].end == m.Newest().end)
    ensures GroupPoint(Grouping(m, groups), p)
         == Grouping(m, if p.ts < m.Newest().start then groups
                     else [Group(m.Newest().start, m.Newest().end,
                                 AppendPoint(if groups == [] then map[] else groups[0].table, p))])
  {
    if groups != [] { assert groups[1..] == []; }
  }

  lemma InvariantShape(m: Shards)
    requires ShardInvariant(m)
    ensures m.shards != [] && m.window > 0 && 0 <= m.Newest().start < m.Newest().end
    ensures m.Newest().state == ShardActive
  {
  }

  lemma {:induction false} FlattenOf<V>(t: Table<V>, order: seq<nat>, s: nat)
    requires WellFormedTable(t)
    requires forall i, j :: 0 <= i < j < |order| ==> order[i] != order[j]
    ensures Filter(OfSeries(s), Flatten(t, order)) == if s in order then PointsOf(t, s) else []
    decreases |order|
  {
    if order != [] {
      var n := |order| - 1;
      var before, k := order[..n], order[n];
      FlattenOf(t, before, s);
      FilterConcat(OfSeries(s), Flatten(t, before), PointsOf(t, k));
      assert order == before + [k];
      if k == s {
        FilterAll(OfSeries(s), PointsOf(t, k));
      } else {
        FilterNone(OfSeries(s), PointsOf(t, k));
      }
    }
  }

  /** Whatever order the map is walked in, the kept points end up as the filtered table. */
  lemma FlattenedIsKept<V>(t: Table<V>, order: seq<nat>, start: int)
    requires WellFormedTable(t) && IsOrder(order, t)
    ensures AppendPoints(map[], Filter(AtOrAfter(start), Flatten(t, order))) == KeptFrom(t, start)
  {
    hide Filter, Flatten, AppendPoints;
    var ps := Filter(AtOrAfter<V>(start), Flatten(t, order));
    var out: Table<V>, kept: Table<V> := AppendPoints(map[], ps), KeptFrom(t, start);
    forall s: nat
      ensures s in out <==> s in kept
      ensures PointsOf(out, s) == PointsOf(kept, s)
    {
      AppendPointsOf(ps, s);
      FilterCommutes(OfSeries(s), AtOrAfter(start), Flatten(t, order));
      FlattenOf(t, order, s);
      FilterNothing(AtOrAfter<V>(start));
    }
    assert forall s :: s in out ==> out[s] == PointsOf(out, s) == PointsOf(kept, s) == kept[s];
  }

  lemma {:induction false} FlattenTimes<V>(t: Table<V>, order: seq<nat>, p: Point<V>)
    requires p in Flatten(t, order)
    ensures p.ts in Times(t)
    decreases |order|
  {
    var n := |order| - 1;
    if p in PointsOf(t, order[n]) {
      var i :| 0 <= i < |t[order[n]]| && t[order[n]][i] == p;
    } else {
      FlattenTimes(t, order[..n], p);
    }
  }

  lemma KeptTimes<V>(t: Table<V>, start: int, ts: int)
    ensures ts in Times(KeptFrom(t, start)) <==> ts in Times(t) && ts >= start
  {
    var kept: Table<V> := KeptFrom(t, start);
    if ts in Times(kept) {
      var s, i :| s in kept && 0 <= i < |kept[s]| && kept[s][i].ts == ts;
      var p: Point<V> := kept[s][i];
      FilterMember(AtOrAfter<V>(start), t[s], p);
      var j :| 0 <= j < |t[s]| && t[s][j] == p;
      assert t[s][j].ts in Times(t);
    }
    if ts in Times(t) && ts >= start {
      var s, i :| s in t && 0 <= i < |t[s]| && t[s][i].ts == ts;
      var p: Point<V> := t[s][i];
      FilterMember(AtOrAfter<V>(start), t[s], p);
      var j :| 0 <= j < |kept[s]| && kept[s][j] == p;
      assert kept[s][j].ts in Times(kept);
    }
  }

  lemma KeptNonEmpty<V>(t: Table<V>, start: int)
    ensures KeptFrom(t, start) != map[] ==> Times(KeptFrom(t, start)) != {}
    ensures KeptFrom(t, start) == map[] ==> Times(KeptFrom(t, start)) == {}
  {
    var kept: Table<V> := KeptFrom(t, start);
    if kept != map[] {
      var s :| s in kept;
      assert kept[s][0].ts in Times(kept);
    }
  }

  /** When every buffered point lies below the newest shard's end, a flush never rotates, forms
      at most one group, never fails to route, and stores exactly the buffered points at or
      after the newest shard's start, whatever order the maps are walked in. */
  lemma FlushIsPlain<V>(c: Core<V>, order: seq<nat>)
    requires c.shards.shards != [] && c.shards.window > 0 && WellFormedTable(c.mem.byID) && BelowNewestEnd(c)
    requires IsOrder(order, c.mem.byID)
    ensures FlushCore(c, order) == (FlushPlain(c), true)
  {
    hide Filter, Flatten, GroupPoints, AppendPoints, KeptFrom, Times;
    if c.mem.points > 0 {
      var start, ps := c.shards.Newest().start, Flatten(c.mem.byID, order);
      var kept := KeptFrom(c.mem.byID, start);
      forall p | p in ps ensures p.ts < c.shards.Newest().end { FlattenTimes(c.mem.byID, order, p); }
      GroupsIntoOne(c.shards, ps);
      FlattenedIsKept(c.mem.byID, order, start);
      KeptNonEmpty(c.mem.byID, start);
      var inside := Filter(AtOrAfter<V>(start), ps);
      AppendNonEmpty(inside);
      StoreOne(Flushed(c.shards, c.store, true), Group(start, c.shards.Newest().end, kept));
      if inside != [] {
        KeptTimes(c.mem.byID, start, Least(Times(kept)));
      }
    }
  }

  lemma AppendNonEmpty<V>(ps: seq<Point<V>>)
    ensures AppendPoints(map[], ps) == map[] <==> ps == []
  {
    if ps != [] {
      var p := ps[|ps| - 1];
      assert p.series in AppendPoints(map[], ps);
    }
  }

  lemma StoreOne<V>(f: Flushed<V>, g: Group<V>)
    requires f.shards.shards != [] && f.shards.window > 0 && f.ok
    ensures StoreGroups(f, [g]) == StoreGroup(f, g) && StoreGroups(f, []) == f
  {
    assert [g][..0] == [];
  }
}
